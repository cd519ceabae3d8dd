// The text of a configuration file: values printed one line per symbol, strings quoted and
// escaped, and the line reader that takes them apart again.

module ConfigText {
  import opened Common
  import opened KconfigExpr

  const QUOTE := '"'
  const BACKSLASH := '\\'
  const PREFIX := "CONFIG_"
  const UNSET := " is not set\n"

  // ----- Escaping -----

  predicate IsSpecial(c: char) {
    c == QUOTE || c == BACKSLASH
  }

  /** A backslash in front of every quote and backslash. */
  function EscapeBody(s: string): string {
    if s == [] then [] else (if IsSpecial(s[0]) then [BACKSLASH, s[0]] else [s[0]]) + EscapeBody(s[1..])
  }

  function Escape(s: string): string {
    [QUOTE] + EscapeBody(s) + [QUOTE]
  }

  /** Nothing else is escaped. */
  lemma {:induction false} EscapePlain(s: string)
    requires forall i :: 0 <= i < |s| ==> s[i] != '"' && s[i] != '\\'
    ensures Escape(s) == ['"'] + s + ['"'] && EscapeBody(s) == s
    decreases |s|
  {
    if s != [] {
      EscapePlain(s[1..]);
      assert [s[0]] + s[1..] == s;
    }
  }

  function Specials(s: string): nat {
    if s == [] then 0 else (if IsSpecial(s[0]) then 1 else 0) + Specials(s[1..])
  }

  lemma {:induction false} EscapeBodyAppend(a: string, b: string)
    ensures EscapeBody(a + b) == EscapeBody(a) + EscapeBody(b)
    decreases |a|
  {
    if a == [] {
      assert a + b == b;
    } else {
      assert (a + b)[1..] == a[1..] + b;
      EscapeBodyAppend(a[1..], b);
    }
  }

  lemma {:induction false} EscapeBodyLength(s: string)
    ensures |EscapeBody(s)| == |s| + Specials(s)
  {
    if s != [] { EscapeBodyLength(s[1..]); }
  }

  /** sym_escape_string_value: sizes a buffer in one pass and fills it in a second. The size
      is exactly the length of the result and its terminator. */
  method EscapeString(s: string) returns (res: string, reslen: nat)
    ensures res == Escape(s)
    ensures reslen == |res| + 1
  {
    reslen := |s| + 2 + 1;
    var p := 0;
    while p < |s|
      invariant p <= |s| && reslen + Specials(s[p..]) == |s| + 3 + Specials(s)
    {
      assert s[p..][1..] == s[p + 1..];
      if IsSpecial(s[p]) { reslen := reslen + 1; }
      p := p + 1;
    }
    EscapeBodyLength(s);
    res := [QUOTE];
    p := 0;
    while p < |s|
      invariant p <= |s| && res == [QUOTE] + EscapeBody(s[..p])
    {
      assert s[..p + 1] == s[..p] + [s[p]];
      EscapeBodyAppend(s[..p], [s[p]]);
      assert [s[p]][1..] == [];
      assert EscapeBody([s[p]]) == if IsSpecial(s[p]) then [BACKSLASH, s[p]] else [s[p]];
      if IsSpecial(s[p]) { res := res + [BACKSLASH]; }
      res := res + [s[p]];
      p := p + 1;
    }
    assert s[..|s|] == s;
    res := res + [QUOTE];
  }

  /** What follows an opening quote, up to the first quote that is not escaped, without the
      escaping backslashes; nothing if there is no such quote. */
  function Unquote(p: string): Option<string>
    decreases |p|
  {
    if p == [] then None
    else if p[0] == QUOTE then Some([])
    else if p[0] == BACKSLASH then
      if |p| == 1 then None
      else Prefixed([p[1]], Unquote(p[2..]))
    else Prefixed([p[0]], Unquote(p[1..]))
  }

  function Prefixed(pre: string, r: Option<string>): Option<string> {
    if r.Some? then Some(pre + r.value) else None
  }

  lemma PrefixedTwice(pre: string, c: char, r: Option<string>)
    ensures Prefixed(pre, Prefixed([c], r)) == Prefixed(pre + [c], r)
  {
    if r.Some? { assert pre + ([c] + r.value) == (pre + [c]) + r.value; }
  }

  /** The loop of conf_set_sym_val on a quoted value: backslashes are squeezed out of the
      buffer and the closing quote cuts it. */
  method UnquoteInPlace(text: string) returns (r: Option<string>)
    ensures r == Unquote(text)
  {
    var buf := text;
    var at := 0;
    assert text[0..] == text;
    if Unquote(text).Some? { assert [] + Unquote(text).value == Unquote(text).value; }
    while at < |buf|
      invariant at <= |buf|
      invariant Unquote(text) == Prefixed(buf[..at], Unquote(buf[at..]))
      decreases |buf| - at
    {
      ghost var here := buf[at..];
      if buf[at] == QUOTE {
        assert buf[..at] + [] == buf[..at];
        return Some(buf[..at]);
      }
      ghost var pre := buf[..at];
      if buf[at] == BACKSLASH {
        buf := buf[..at] + buf[at + 1..];
        if at == |buf| { return None; }
        assert here == [BACKSLASH] + buf[at..];
        assert here[1] == buf[at] && here[2..] == buf[at..][1..] == buf[at + 1..];
      } else {
        assert here[1..] == buf[at + 1..];
      }
      assert buf[..at + 1] == pre + [buf[at]];
      PrefixedTwice(pre, buf[at], Unquote(buf[at + 1..]));
      at := at + 1;
    }
    r := None;
  }

  /** Reading back what was escaped: the text after the closing quote does not matter. */
  lemma {:induction false} UnquoteEscape(s: string, after: string)
    ensures Unquote(EscapeBody(s) + [QUOTE] + after) == Some(s)
  {
    if s == [] {
      assert EscapeBody(s) + [QUOTE] + after == [QUOTE] + after;
    } else {
      UnquoteEscape(s[1..], after);
      var head := if IsSpecial(s[0]) then [BACKSLASH, s[0]] else [s[0]];
      var rest := EscapeBody(s[1..]);
      assert EscapeBody(s) == head + rest;
      hide EscapeBody, Unquote;
      assert head + rest + [QUOTE] + after == head + (rest + [QUOTE] + after);
      UnquoteHead(s[0], rest + [QUOTE] + after);
      assert [s[0]] + s[1..] == s;
    }
  }

  lemma UnquoteHead(c: char, rest: string)
    ensures Unquote((if IsSpecial(c) then [BACKSLASH, c] else [c]) + rest) == Prefixed([c], Unquote(rest))
  {
    if IsSpecial(c) {
      assert ([BACKSLASH, c] + rest)[2..] == rest;
    } else {
      assert ([c] + rest)[1..] == rest;
    }
  }

  /** Without its closing quote an escaped text is no string. */
  lemma {:induction false} UnquoteUnclosed(s: string)
    ensures Unquote(EscapeBody(s)) == None
  {
    if s != [] {
      UnquoteUnclosed(s[1..]);
      var text := EscapeBody(s);
      if IsSpecial(s[0]) { assert text[2..] == EscapeBody(s[1..]); } else { assert text[1..] == EscapeBody(s[1..]); }
    }
  }

  // ----- Values -----

  predicate IsDigit(c: char) { '0' <= c <= '9' }

  predicate IsHexDigit(c: char) { IsDigit(c) || 'a' <= c <= 'f' || 'A' <= c <= 'F' }

  predicate AllDigits(s: string) { forall i :: 0 <= i < |s| ==> IsDigit(s[i]) }

  predicate AllHexDigits(s: string) { forall i :: 0 <= i < |s| ==> IsHexDigit(s[i]) }

  /** An optional minus, then digits without a leading zero. */
  predicate IntValid(s: string) {
    var d := if s != [] && s[0] == '-' then s[1..] else s;
    d != [] && AllDigits(d) && !(d[0] == '0' && |d| > 1)
  }

  predicate HexValid(s: string) {
    var d := if |s| >= 2 && s[0] == '0' && (s[1] == 'x' || s[1] == 'X') then s[2..] else s;
    d != [] && AllHexDigits(d)
  }

  datatype Value = Tri(tri: Tristate) | Text(str: string)

  /** A value that a symbol of the kind can hold. */
  predicate Fits(k: Kind, v: Value) {
    match k
    case Boolean => v.Tri? && v.tri != Mod
    case TristateKind => v.Tri?
    case IntKind => v.Text? && IntValid(v.str)
    case HexKind => v.Text? && HexValid(v.str)
    case StringKind => v.Text?
    case _ => false
  }

  /** The printed form of a value. */
  function Shown(k: Kind, v: Value): string {
    match v
    case Tri(t) => Letter(t)
    case Text(s) => if k == StringKind then Escape(s) else s
  }

  /** The line of one symbol; n is a comment. */
  function PrintLine(k: Kind, name: string, v: Value): string {
    if (k == Boolean || k == TristateKind) && v == Tri(No) then "# " + PREFIX + name + UNSET
    else PREFIX + name + "=" + Shown(k, v) + "\n"
  }

  /** The lines as they are in the file. */
  lemma PrintedForms(name: string, s: string)
    ensures PrintLine(Boolean, name, Tri(Yes)) == "CONFIG_" + name + "=y\n"
    ensures PrintLine(TristateKind, name, Tri(Mod)) == "CONFIG_" + name + "=m\n"
    ensures PrintLine(TristateKind, name, Tri(No)) == "# CONFIG_" + name + " is not set\n"
    ensures PrintLine(IntKind, name, Text(s)) == "CONFIG_" + name + "=" + s + "\n"
  {
    assert "CONFIG_" + name + "=" + "y" + "\n" == "CONFIG_" + name + "=y\n";
    assert "CONFIG_" + name + "=" + "m" + "\n" == "CONFIG_" + name + "=m\n";
    assert "# " + "CONFIG_" == "# CONFIG_";
  }

  // ----- Reading -----

  /** conf_set_sym_val: nothing when the text is no value of the kind. */
  function ReadValue(k: Kind, p: string): Option<Value> {
    match k
    case TristateKind =>
      if p == [] then None
      else if p[0] == 'm' then Some(Tri(Mod))
      else if p[0] == 'y' then Some(Tri(Yes))
      else if p[0] == 'n' then Some(Tri(No))
      else None
    case Boolean =>
      if p == [] then None
      else if p[0] == 'y' then Some(Tri(Yes))
      else if p[0] == 'n' then Some(Tri(No))
      else None
    case StringKind =>
      if p == [] || p[0] != QUOTE then None
      else
        var u := Unquote(p[1..]);
        if u.Some? then Some(Text(u.value)) else None
    case IntKind => if IntValid(p) then Some(Text(p)) else None
    case HexKind => if HexValid(p) then Some(Text(p)) else None
    case _ => None
  }

  /** Offset of the first `c` from `i` on, or |s|. */
  function Find(s: string, c: char, i: nat): (k: nat)
    requires i <= |s|
    ensures i <= k <= |s|
    ensures k < |s| ==> s[k] == c
    ensures forall j :: i <= j < k ==> s[j] != c
    decreases |s| - i
  {
    if i == |s| || s[i] == c then i else Find(s, c, i + 1)
  }

  predicate StartsWith(s: string, w: string) {
    |w| <= |s| && s[..|w|] == w
  }

  /** The text of a value without its line end. */
  function CutLine(p: string): string {
    var e := Find(p, '\n', 0);
    if e < |p| && e > 0 && p[e - 1] == '\r' then p[..e - 1] else p[..e]
  }

  datatype Outcome = Ignored | Assign(name: string, value: Value)

  /** One line of the reader; `kinds` are the symbols there are. */
  function ReadLine(kinds: map<string, Kind>, line: string): Outcome {
    if line != [] && line[0] == '#' then
      if |line| < 2 || !StartsWith(line[2..], PREFIX) then Ignored
      else
        var body := line[2 + |PREFIX|..];
        var e := Find(body, ' ', 0);
        if e == |body| || !StartsWith(body[e + 1..], "is not set") || body[..e] !in kinds then Ignored
        else if kinds[body[..e]] == Boolean || kinds[body[..e]] == TristateKind then Assign(body[..e], Tri(No))
        else Ignored
    else if StartsWith(line, PREFIX) then
      var body := line[|PREFIX|..];
      var e := Find(body, '=', 0);
      if e == |body| || body[..e] !in kinds then Ignored
      else
        var v := ReadValue(kinds[body[..e]], CutLine(body[e + 1..]));
        if v.Some? then Assign(body[..e], v.value) else Ignored
    else Ignored
  }

  // ----- Round trip of a line -----

  predicate GoodName(name: string) {
    forall i :: 0 <= i < |name| ==> name[i] != ' ' && name[i] != '=' && name[i] != '\n'
  }

  predicate OneLine(s: string) {
    forall i :: 0 <= i < |s| ==> s[i] != '\n'
  }

  lemma FindAfter(a: string, c: char, b: string)
    requires forall i :: 0 <= i < |a| ==> a[i] != c
    ensures Find(a + [c] + b, c, 0) == |a|
  {
    var s := a + [c] + b;
    assert s[|a|] == c && forall i :: 0 <= i < |a| ==> s[i] == a[i];
  }

  lemma {:induction false} EscapeOneLine(s: string)
    ensures OneLine(EscapeBody(s)) <==> OneLine(s)
  {
    if s != [] {
      EscapeOneLine(s[1..]);
      var head := if IsSpecial(s[0]) then [BACKSLASH, s[0]] else [s[0]];
      var body := EscapeBody(s[1..]);
      assert EscapeBody(s) == head + body;
      assert OneLine(head + body) <==> OneLine(head) && OneLine(body) by { OneLineAppend(head, body); }
      assert OneLine(s) <==> OneLine([s[0]]) && OneLine(s[1..]) by {
        assert s == [s[0]] + s[1..];
        OneLineAppend([s[0]], s[1..]);
      }
      assert OneLine(head) <==> s[0] != '\n' by {
        if IsSpecial(s[0]) { assert head[1] == s[0]; } else { assert head[0] == s[0]; }
      }
      assert OneLine([s[0]]) <==> s[0] != '\n' by { assert [s[0]][0] == s[0]; }
    }
  }

  lemma OneLineAppend(a: string, b: string)
    ensures OneLine(a + b) <==> OneLine(a) && OneLine(b)
  {
    if OneLine(a + b) {
      forall i | 0 <= i < |a| ensures a[i] != '\n' { assert (a + b)[i] == a[i]; }
      forall i | 0 <= i < |b| ensures b[i] != '\n' { assert (a + b)[|a| + i] == b[i]; }
    }
  }

  /** What is shown has no line end, and for strings exactly when the string has none. */
  lemma ShownOneLine(k: Kind, v: Value)
    requires Fits(k, v)
    ensures OneLine(Shown(k, v)) <==> (k == StringKind ==> OneLine(v.str))
    ensures Shown(k, v) != [] && Shown(k, v)[|Shown(k, v)| - 1] != '\r'
  {
    match k
    case StringKind =>
      EscapeOneLine(v.str);
      OneLineAppend([QUOTE], EscapeBody(v.str));
      OneLineAppend([QUOTE] + EscapeBody(v.str), [QUOTE]);
    case IntKind =>
      var d := if v.str != [] && v.str[0] == '-' then v.str[1..] else v.str;
      assert v.str[|v.str| - 1] == d[|d| - 1] && IsDigit(d[|d| - 1]);
    case HexKind =>
      var d := if |v.str| >= 2 && v.str[0] == '0' && (v.str[1] == 'x' || v.str[1] == 'X') then v.str[2..] else v.str;
      assert v.str[|v.str| - 1] == d[|d| - 1] && IsHexDigit(d[|d| - 1]);
    case _ =>
  }

  lemma CutShown(p: string)
    requires OneLine(p) && p != [] && p[|p| - 1] != '\r'
    ensures CutLine(p + "\n") == p
  {
    FindAfter(p, '\n', []);
    assert p + ['\n'] + [] == p + "\n";
  }

  lemma ReadShown(k: Kind, v: Value)
    requires Fits(k, v)
    ensures ReadValue(k, Shown(k, v)) == Some(v)
  {
    if k == StringKind {
      UnquoteEscape(v.str, []);
      assert Escape(v.str)[1..] == EscapeBody(v.str) + [QUOTE] + [];
    }
  }

  lemma UnsetRoundTrip(kinds: map<string, Kind>, name: string)
    requires name in kinds && GoodName(name) && (kinds[name] == Boolean || kinds[name] == TristateKind)
    ensures ReadLine(kinds, "# " + PREFIX + name + UNSET) == Assign(name, Tri(No))
  {
    var line := "# " + PREFIX + name + UNSET;
    var body := name + [' '] + "is not set\n";
    assert line == "# " + (PREFIX + body);
    assert line[2..] == PREFIX + body;
    assert line[2 + |PREFIX|..] == body;
    FindAfter(name, ' ', "is not set\n");
    assert body[|name| + 1..] == "is not set\n" && body[..|name|] == name;
  }

  lemma SetLine(kinds: map<string, Kind>, name: string, text: string)
    requires GoodName(name)
    ensures ReadLine(kinds, PREFIX + name + "=" + text)
            == var v := if name in kinds then ReadValue(kinds[name], CutLine(text)) else None;
               if v.Some? then Assign(name, v.value) else Ignored
  {
    hide ReadValue, CutLine;
    var line := PREFIX + name + "=" + text;
    var body := name + ['='] + text;
    assert line == PREFIX + body;
    assert line[|PREFIX|..] == body && line[..|PREFIX|] == PREFIX;
    assert line[0] == PREFIX[0];
    FindAfter(name, '=', text);
    assert body[|name| + 1..] == text && body[..|name|] == name;
  }

  /** A printed line reads back as the same assignment. */
  lemma LineRoundTrip(kinds: map<string, Kind>, name: string, v: Value)
    requires name in kinds && GoodName(name) && Fits(kinds[name], v)
    requires kinds[name] == StringKind ==> OneLine(v.str)
    ensures ReadLine(kinds, PrintLine(kinds[name], name, v)) == Assign(name, v)
  {
    hide ReadLine, ReadValue, CutLine, Shown;
    var k := kinds[name];
    if (k == Boolean || k == TristateKind) && v == Tri(No) {
      UnsetRoundTrip(kinds, name);
    } else {
      var shown := Shown(k, v);
      assert PrintLine(k, name, v) == PREFIX + name + "=" + (shown + "\n");
      SetLine(kinds, name, shown + "\n");
      ShownOneLine(k, v);
      CutShown(shown);
      ReadShown(k, v);
    }
  }

  // ----- Lines that are not printed -----

  /** The first letter decides for bool and tristate symbols; m is no value of a bool one. */
  lemma ReadLetter(k: Kind, p: string)
    requires k == Boolean || k == TristateKind
    ensures var t := if p == [] then None
                     else if p[0] == 'y' then Some(Yes)
                     else if p[0] == 'n' then Some(No)
                     else if p[0] == 'm' && k == TristateKind then Some(Mod) else None;
            ReadValue(k, p) == if t.Some? then Some(Tri(t.value)) else None
  {
  }

  /** A line with "=n" reads as n, like the comment that is printed for it. */
  lemma NoLine(kinds: map<string, Kind>, name: string)
    requires name in kinds && GoodName(name) && (kinds[name] == Boolean || kinds[name] == TristateKind)
    ensures ReadLine(kinds, PREFIX + name + "=n\n") == Assign(name, Tri(No))
  {
    hide ReadLine, ReadValue, CutLine;
    assert PREFIX + name + "=n\n" == PREFIX + name + "=" + ("n" + "\n");
    SetLine(kinds, name, "n" + "\n");
    CutEnds("n");
    ReadLetter(kinds[name], "n");
  }

  /** A carriage return in front of the line end is no part of the value. */
  lemma CutEnds(v: string)
    requires OneLine(v)
    ensures CutLine(v + "\r\n") == v
    ensures v == [] || v[|v| - 1] != '\r' ==> CutLine(v + "\n") == v
    ensures CutLine(v) == v
  {
    var s := v + "\r\n";
    assert s == (v + "\r") + ['\n'] + [];
    assert forall i :: 0 <= i < |v + "\r"| ==> (v + "\r")[i] != '\n';
    FindAfter(v + "\r", '\n', []);
    assert v + "\n" == v + ['\n'] + [];
    FindAfter(v, '\n', []);
  }

  /** So both line ends read the same. */
  lemma LineEnds(kinds: map<string, Kind>, name: string, v: string)
    requires GoodName(name) && OneLine(v) && (v == [] || v[|v| - 1] != '\r')
    ensures ReadLine(kinds, PREFIX + name + "=" + (v + "\r\n")) == ReadLine(kinds, PREFIX + name + "=" + (v + "\n"))
  {
    hide ReadLine, ReadValue, CutLine;
    CutEnds(v);
    SetLine(kinds, name, v + "\r\n");
    SetLine(kinds, name, v + "\n");
  }

  /** Whatever is read is a value that the symbol can hold, of a symbol there is. */
  lemma ReadFits(kinds: map<string, Kind>, line: string)
    ensures var r := ReadLine(kinds, line);
            r.Assign? ==> r.name in kinds && Fits(kinds[r.name], r.value)
  {
  }

  // ----- Whole files -----

  /** The first line of a text, with its line end if it has one. */
  function FirstLine(text: string): (l: string)
    ensures |l| <= |text| && l == text[..|l|]
    ensures text != [] ==> l != []
  {
    var e := Find(text, '\n', 0);
    if e < |text| then text[..e + 1] else text
  }

  function ReadAll(kinds: map<string, Kind>, text: string): seq<Outcome>
    decreases |text|
  {
    if text == [] then []
    else
      var l := FirstLine(text);
      [ReadLine(kinds, l)] + ReadAll(kinds, text[|l|..])
  }

  datatype Entry = Entry(name: string, value: Value)

  function PrintAll(kinds: map<string, Kind>, es: seq<Entry>): string
    requires forall i :: 0 <= i < |es| ==> es[i].name in kinds
  {
    if es == [] then []
    else PrintLine(kinds[es[0].name], es[0].name, es[0].value) + PrintAll(kinds, es[1..])
  }

  ghost predicate Printable(kinds: map<string, Kind>, e: Entry) {
    && e.name in kinds
    && GoodName(e.name)
    && Fits(kinds[e.name], e.value)
  }

  predicate HasLineEnd(kinds: map<string, Kind>, e: Entry)
    requires e.name in kinds
  {
    kinds[e.name] == StringKind && e.value.Text? && !OneLine(e.value.str)
  }

  lemma FirstLineIs(l: string, rest: string)
    requires OneLine(l)
    ensures FirstLine(l + "\n" + rest) == l + "\n" && (l + "\n" + rest)[|l| + 1..] == rest
  {
    var text := l + ['\n'] + rest;
    FindAfter(l, '\n', rest);
    assert text == l + "\n" + rest;
    assert text[..|l| + 1] == l + "\n";
  }

  /** A printed line is one line. */
  lemma PrintedIsOneLine(kinds: map<string, Kind>, e: Entry) returns (l: string)
    requires Printable(kinds, e) && !HasLineEnd(kinds, e)
    ensures OneLine(l) && PrintLine(kinds[e.name], e.name, e.value) == l + "\n"
  {
    var k, n := kinds[e.name], e.name;
    if (k == Boolean || k == TristateKind) && e.value == Tri(No) {
      l := "# " + PREFIX + n + " is not set";
      assert OneLine("# " + PREFIX) && OneLine(" is not set");
      OneLineAppend("# " + PREFIX, n);
      OneLineAppend("# " + PREFIX + n, " is not set");
      assert PrintLine(k, n, e.value) == l + "\n";
    } else {
      ShownOneLine(k, e.value);
      l := PREFIX + n + "=" + Shown(k, e.value);
      OneLineAppend(PREFIX, n);
      OneLineAppend(PREFIX + n, "=");
      OneLineAppend(PREFIX + n + "=", Shown(k, e.value));
    }
  }

  function AsAssign(e: Entry): Outcome {
    Assign(e.name, e.value)
  }

  /** A file of printed symbols reads back as exactly those assignments, in order. */
  lemma {:induction false} FileRoundTrip(kinds: map<string, Kind>, es: seq<Entry>)
    requires forall i :: 0 <= i < |es| ==> es[i].name in kinds
    requires forall i :: 0 <= i < |es| ==> Printable(kinds, es[i]) && !HasLineEnd(kinds, es[i])
    ensures ReadAll(kinds, PrintAll(kinds, es)) == seq(|es|, i requires 0 <= i < |es| => AsAssign(es[i]))
    decreases |es|
  {
    if es != [] {
      hide ReadLine, PrintLine;
      var e := es[0];
      var l := PrintedIsOneLine(kinds, e);
      var rest := PrintAll(kinds, es[1..]);
      FirstLineIs(l, rest);
      assert PrintAll(kinds, es) == l + "\n" + rest;
      LineRoundTrip(kinds, e.name, e.value);
      FileRoundTrip(kinds, es[1..]);
    }
  }

  /** A string is restored from its printed line exactly when it has no line end in it. */
  lemma StringRoundTripExact(kinds: map<string, Kind>, name: string, s: string)
    requires name in kinds && GoodName(name) && kinds[name] == StringKind
    ensures ReadLine(kinds, FirstLine(PrintLine(StringKind, name, Text(s)))) == Assign(name, Text(s)) <==> OneLine(s)
  {
    var e := Entry(name, Text(s));
    if OneLine(s) {
      var l := PrintedIsOneLine(kinds, e);
      FirstLineIs(l, []);
      assert l + "\n" + [] == l + "\n";
      LineRoundTrip(kinds, name, Text(s));
    } else {
      BrokenString(kinds, name, s);
    }
  }

  lemma EscapeBroken(a: string, b: string)
    ensures Escape(a + ['\n'] + b) == ([QUOTE] + EscapeBody(a)) + "\n" + (EscapeBody(b) + [QUOTE])
  {
    hide EscapeBody;
    assert a + ['\n'] + b == a + (['\n'] + b);
    EscapeBodyAppend(a, ['\n'] + b);
    EscapeBodyAppend(['\n'], b);
    LineEndPlain();
  }

  lemma LineEndPlain()
    ensures EscapeBody(['\n']) == ['\n'] && EscapeBody(['\r']) == ['\r']
  {
    assert ['\n'][1..] == [] && ['\r'][1..] == [];
  }

  lemma BrokenLine(name: string, a: string, b: string)
    ensures PrintLine(StringKind, name, Text(a + ['\n'] + b))
            == PREFIX + name + "=" + ([QUOTE] + EscapeBody(a)) + "\n" + (EscapeBody(b) + [QUOTE] + "\n")
  {
    hide EscapeBody, Escape;
    EscapeBroken(a, b);
    var x, y, z := PREFIX + name + "=", [QUOTE] + EscapeBody(a), EscapeBody(b) + [QUOTE];
    assert x + (y + "\n" + z) + "\n" == x + y + "\n" + (z + "\n");
  }

  lemma BrokenFirst(name: string, a: string)
    requires GoodName(name) && OneLine(a)
    ensures OneLine(PREFIX + name + "=" + ([QUOTE] + EscapeBody(a)))
  {
    hide EscapeBody;
    EscapeOneLine(a);
    OneLineAppend(PREFIX, name);
    OneLineAppend(PREFIX + name, "=");
    OneLineAppend([QUOTE], EscapeBody(a));
    OneLineAppend(PREFIX + name + "=", [QUOTE] + EscapeBody(a));
  }

  lemma BrokenString(kinds: map<string, Kind>, name: string, s: string)
    requires name in kinds && GoodName(name) && kinds[name] == StringKind && !OneLine(s)
    ensures ReadLine(kinds, FirstLine(PrintLine(StringKind, name, Text(s)))) == Ignored
  {
    hide ReadLine, ReadValue, EscapeBody, Escape, CutLine;
    var e := Find(s, '\n', 0);
    var a, b := s[..e], s[e + 1..];
    assert s == a + ['\n'] + b;
    var first := [QUOTE] + EscapeBody(a);
    var l := PREFIX + name + "=" + first;
    var rest := EscapeBody(b) + [QUOTE] + "\n";
    BrokenLine(name, a, b);
    BrokenFirst(name, a);
    FirstLineIs(l, rest);
    assert l + "\n" == PREFIX + name + "=" + (first + "\n");
    SetLine(kinds, name, first + "\n");
    CutBroken(a);
  }

  /** Cutting the first line of a broken string leaves an escaped text without its quote. */
  lemma CutEscaped(a: string) returns (a': string)
    requires OneLine(a)
    ensures CutLine([QUOTE] + EscapeBody(a) + "\n") == [QUOTE] + EscapeBody(a')
  {
    hide EscapeBody;
    EscapeOneLine(a);
    OneLineAppend([QUOTE], EscapeBody(a));
    var first := [QUOTE] + EscapeBody(a);
    FindAfter(first, '\n', []);
    assert first + ['\n'] + [] == first + "\n";
    LastEscaped(a);
    if a != [] && a[|a| - 1] == '\r' {
      a' := a[..|a| - 1];
      assert a == a' + ['\r'];
      EscapeBodyAppend(a', ['\r']);
      LineEndPlain();
    } else {
      a' := a;
      assert a == [] ==> EscapeBody(a) == [] by { EscapeBodyLength(a); }
    }
  }

  /** The half of a broken string that is on its first line is no value. */
  lemma CutBroken(a: string)
    requires OneLine(a)
    ensures ReadValue(StringKind, CutLine([QUOTE] + EscapeBody(a) + "\n")) == None
  {
    hide EscapeBody, CutLine;
    var a' := CutEscaped(a);
    UnquoteUnclosed(a');
    assert ([QUOTE] + EscapeBody(a'))[1..] == EscapeBody(a');
  }

  lemma LastEscaped(a: string)
    ensures a != [] ==> EscapeBody(a) != [] && EscapeBody(a)[|EscapeBody(a)| - 1] == a[|a| - 1]
  {
    if a != [] {
      assert a == a[..|a| - 1] + [a[|a| - 1]];
      EscapeBodyAppend(a[..|a| - 1], [a[|a| - 1]]);
      assert [a[|a| - 1]][1..] == [];
    }
  }
}
