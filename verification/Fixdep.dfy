// Finding the CONFIG_ words of a source file: a scan by aligned four-byte words, and a hash
// table that lets every name through once.

module Fixdep {
  import opened Common

  /** Past the end of the mapped file the bytes read as zero. */
  function ByteAt(s: string, i: nat): char {
    if i < |s| then s[i] else '\0'
  }

  predicate IsNameChar(c: char) {
    ('a' <= c <= 'z') || ('A' <= c <= 'Z') || ('0' <= c <= '9') || c == '_'
  }

  /** "CONFIG_" stands at offset `p`. */
  predicate Occurs(s: string, p: nat) {
    p + 7 <= |s| && s[p..p + 7] == "CONFIG_"
  }

  /** The first offset from `q` on that does not continue a name, or |s|. */
  function NameEnd(s: string, q: nat): (e: nat)
    requires q <= |s|
    ensures q <= e <= |s|
    ensures e < |s| ==> !IsNameChar(s[e])
    ensures forall i :: q <= i < e ==> IsNameChar(s[i])
    decreases |s| - q
  {
    if q == |s| || !IsNameChar(s[q]) then q else NameEnd(s, q + 1)
  }

  /** The name after the prefix at `p`: up to the first other character, without a final
      "_MODULE"; none if the file ends first or nothing is left. */
  function NameAt(s: string, p: nat): Option<string>
    requires Occurs(s, p)
  {
    var q := NameEnd(s, p + 7);
    if q == |s| then None
    else
      var e := if s[q - 7..q] == "_MODULE" then q - 7 else q;
      if e < p + 7 then None else Some(s[p + 7..e])
  }

  function Found(s: string, p: nat): seq<string> {
    if Occurs(s, p) && NameAt(s, p).Some? then [NameAt(s, p).value] else []
  }

  /** The names at all offsets from `p` on, found by looking at every byte. */
  function NaiveNames(s: string, p: nat): seq<string>
    decreases |s| - p
  {
    if p >= |s| then [] else Found(s, p) + NaiveNames(s, p + 1)
  }

  // ----- What a name is, on the text -----

  const MODULE_SUFFIX := "_MODULE"

  predicate IsName(w: string) {
    forall i :: 0 <= i < |w| ==> IsNameChar(w[i])
  }

  predicate EndsWith(w: string, end: string) {
    |end| <= |w| && w[|w| - |end|..] == end
  }

  lemma {:induction false} NameEndAt(s: string, q: nat, e: nat)
    requires q <= e < |s| && !IsNameChar(s[e]) && forall i :: q <= i < e ==> IsNameChar(s[i])
    ensures NameEnd(s, q) == e
    decreases e - q
  {
    if q < e { NameEndAt(s, q + 1, e); }
  }

  /** A word after "CONFIG_" that another character ends yields itself, without a final
      "_MODULE"; only "MODULE" itself yields nothing, since its underscore is in the prefix. */
  lemma NameExact(before: string, w: string, c: char, after: string)
    requires IsName(w) && !IsNameChar(c)
    ensures var s := before + "CONFIG_" + w + [c] + after;
            && Occurs(s, |before|)
            && NameAt(s, |before|) == if w == "MODULE" then None
                                      else if EndsWith(w, MODULE_SUFFIX) then Some(w[..|w| - 7]) else Some(w)
  {
    var s, p := before + "CONFIG_" + w + [c] + after, |before|;
    var q := p + 7 + |w|;
    TextParts(before, "CONFIG_", w, c, after);
    hide NameEnd;
    NameEndAt(s, p + 7, q);
    if |w| >= 7 {
      SuffixInside(s, p + 7, w);
    } else {
      SuffixOverlaps(s, p, w);
    }
  }

  lemma TextParts(before: string, head: string, w: string, c: char, after: string)
    requires |head| == 7
    ensures var s, p := before + head + w + [c] + after, |before|;
            && p + 7 + |w| < |s| && s[p..p + 7] == head && s[p + 7..p + 7 + |w|] == w && s[p + 7 + |w|] == c
            && forall i :: p + 7 <= i < p + 7 + |w| ==> s[i] == w[i - (p + 7)]
  {
  }

  lemma SuffixInside(s: string, p: nat, w: string)
    requires |w| >= 7 && p + |w| <= |s| && s[p..p + |w|] == w
    ensures s[p + |w| - 7..p + |w|] == w[|w| - 7..] && s[p..p + |w| - 7] == w[..|w| - 7]
  {
  }

  /** A short word ends in "_MODULE" only with the underscore of the prefix. */
  lemma SuffixOverlaps(s: string, p: nat, w: string)
    requires |w| < 7 && p + 7 + |w| <= |s| && s[p..p + 7] == "CONFIG_" && s[p + 7..p + 7 + |w|] == w
    ensures s[p + |w|..p + 7 + |w|] == MODULE_SUFFIX <==> w == "MODULE"
  {
    var t := s[p + |w|..p + 7 + |w|];
    var pre := s[p..p + 7];
    assert forall i :: 0 <= i < 7 - |w| ==> t[i] == pre[|w| + i];
    assert forall i :: 0 <= i < |w| ==> t[7 - |w| + i] == w[i];
    if |w| == 6 {
      assert t == "_" + w;
      assert MODULE_SUFFIX == "_" + "MODULE";
      assert t[1..] == w && MODULE_SUFFIX[1..] == "MODULE";
    } else {
      assert t[0] == pre[|w|] && pre[|w|] != '_';
      assert MODULE_SUFFIX[0] == '_';
    }
  }

  /** A word that the end of the file ends yields nothing. */
  lemma NameAtEnd(before: string, w: string)
    requires IsName(w)
    ensures var s := before + "CONFIG_" + w;
            Occurs(s, |before|) && NameAt(s, |before|) == None
  {
    var s, p := before + "CONFIG_" + w, |before|;
    assert s[p..p + 7] == "CONFIG_";
    assert forall i :: p + 7 <= i < |s| ==> s[i] == w[i - (p + 7)];
  }

  // ----- The scan by words -----

  /** The four bytes at offset `i` are `w`. */
  predicate WordIs(s: string, i: nat, w: string)
    requires |w| == 4
  {
    ByteAt(s, i) == w[0] && ByteAt(s, i + 1) == w[1] && ByteAt(s, i + 2) == w[2] && ByteAt(s, i + 3) == w[3]
  }

  /** Where the prefix would have to begin for word `k` to be part of it. */
  function Candidate(s: string, k: nat): (r: Option<nat>)
    requires k >= 1
    ensures r.Some? ==> 4 * k - 3 <= r.value <= 4 * k
  {
    if WordIs(s, 4 * k, "CONF") then Some(4 * k)
    else if WordIs(s, 4 * k, "ONFI") then Some(4 * k - 1)
    else if WordIs(s, 4 * k, "NFIG") then Some(4 * k - 2)
    else if WordIs(s, 4 * k, "FIG_") then Some(4 * k - 3)
    else None
  }

  function WordFound(s: string, k: nat): seq<string>
    requires k >= 1
  {
    var p := Candidate(s, k);
    if p.Some? then Found(s, p.value) else []
  }

  /** The names the scan finds from word `k` on. */
  function WordNames(s: string, k: nat): seq<string>
    requires k >= 1
    decreases |s| - 4 * k
  {
    if 4 * k >= |s| then [] else WordFound(s, k) + WordNames(s, k + 1)
  }

  lemma OccursAt(s: string, p: nat)
    requires Occurs(s, p)
    ensures s[p] == 'C' && s[p + 1] == 'O' && s[p + 2] == 'N' && s[p + 3] == 'F'
    ensures s[p + 4] == 'I' && s[p + 5] == 'G' && s[p + 6] == '_'
  {
    var w := s[p..p + 7];
    assert w[0] == 'C' && w[1] == 'O' && w[2] == 'N' && w[3] == 'F' && w[4] == 'I' && w[5] == 'G' && w[6] == '_';
  }

  /** A prefix at one of the four offsets that word `k` serves is where the word says. */
  lemma WordHitsPrefix(s: string, k: nat, p: nat)
    requires k >= 1 && 4 * k - 3 <= p <= 4 * k && Occurs(s, p)
    ensures 4 * k < |s| && Candidate(s, k) == Some(p)
  {
    OccursAt(s, p);
  }

  /** So one word finds what looking at its four offsets finds. */
  lemma WordCoversFour(s: string, k: nat)
    requires k >= 1 && 4 * k < |s|
    ensures WordFound(s, k) == Found(s, 4 * k - 3) + Found(s, 4 * k - 2) + Found(s, 4 * k - 1) + Found(s, 4 * k)
  {
    hide Occurs, NameAt, Candidate;
    forall p | 4 * k - 3 <= p <= 4 * k ensures Occurs(s, p) ==> Candidate(s, k) == Some(p) {
      if Occurs(s, p) { WordHitsPrefix(s, k, p); }
    }
    forall p | 4 * k - 3 <= p <= 4 * k ensures !Occurs(s, p) ==> Found(s, p) == [] {}
    if Candidate(s, k).Some? {
      var c := Candidate(s, k).value;
      assert c == 4 * k - 3 || c == 4 * k - 2 || c == 4 * k - 1 || c == 4 * k;
    }
  }

  lemma {:induction false} NothingNearEnd(s: string, p: nat)
    requires p + 7 > |s|
    ensures NaiveNames(s, p) == []
    decreases |s| - p
  {
    if p < |s| { NothingNearEnd(s, p + 1); }
  }

  lemma {:induction false} WordScanFrom(s: string, k: nat)
    requires k >= 1
    ensures WordNames(s, k) == NaiveNames(s, 4 * k - 3)
    decreases |s| - 4 * k
  {
    hide Found, WordFound;
    var p := 4 * k - 3;
    if 4 * k >= |s| {
      NothingNearEnd(s, p);
    } else {
      WordCoversFour(s, k);
      WordScanFrom(s, k + 1);
      assert NaiveNames(s, p) == Found(s, p) + NaiveNames(s, p + 1);
      assert NaiveNames(s, p + 1) == Found(s, p + 1) + NaiveNames(s, p + 2);
      assert NaiveNames(s, p + 2) == Found(s, p + 2) + NaiveNames(s, p + 3);
      assert NaiveNames(s, p + 3) == Found(s, p + 3) + NaiveNames(s, p + 4);
    }
  }

  /** The scan by words finds, in order, exactly the names at offsets 1 and up. */
  lemma WordScanIsNaive(s: string)
    ensures WordNames(s, 1) == NaiveNames(s, 1)
  {
    WordScanFrom(s, 1);
  }

  // ----- Each name once -----

  /** The names not in `seen`, each at its first place only. */
  function FirstOnly(names: seq<string>, seen: set<string>): seq<string> {
    if names == [] then []
    else if names[0] in seen then FirstOnly(names[1..], seen)
    else [names[0]] + FirstOnly(names[1..], seen + {names[0]})
  }

  /** No repeats, nothing seen before, nothing lost, nothing new. */
  lemma {:induction false} FirstOnlyExact(names: seq<string>, seen: set<string>)
    ensures var r := FirstOnly(names, seen);
            && (forall i, j :: 0 <= i < j < |r| ==> r[i] != r[j])
            && (forall n :: n in r <==> n in names && n !in seen)
  {
    if names != [] {
      assert names == [names[0]] + names[1..];
      if names[0] in seen {
        FirstOnlyExact(names[1..], seen);
      } else {
        FirstOnlyExact(names[1..], seen + {names[0]});
        var r := FirstOnly(names[1..], seen + {names[0]});
        assert FirstOnly(names, seen) == [names[0]] + r;
        assert names[0] !in r;
      }
    }
  }

  lemma {:induction false} FirstOnlyAppend(a: seq<string>, b: seq<string>, seen: set<string>)
    ensures FirstOnly(a + b, seen) == FirstOnly(a, seen) + FirstOnly(b, seen + set n | n in a)
    decreases |a|
  {
    if a == [] {
      assert a + b == b && seen + (set n | n in a) == seen;
    } else {
      assert (a + b)[1..] == a[1..] + b;
      if a[0] in seen {
        FirstOnlyAppend(a[1..], b, seen);
        assert seen + (set n | n in a[1..]) == seen + set n | n in a;
      } else {
        FirstOnlyAppend(a[1..], b, seen + {a[0]});
        assert seen + {a[0]} + (set n | n in a[1..]) == seen + set n | n in a;
      }
    }
  }

  // ----- The hash table -----

  const BUCKETS: nat := 256

  /** The 32-bit FNV hash. */
  function Hash(s: string): bv32 {
    HashFrom(s, 2166136261)
  }

  function HashFrom(s: string, h: bv32): bv32 {
    if s == [] then h else HashFrom(s[1..], (h ^ ((s[0] as int % 256) as bv32)) * 0x01000193)
  }

  function BucketOf(h: bv32): (b: nat)
    ensures b < BUCKETS
  {
    (h as nat) % BUCKETS
  }

  datatype Item = Item(name: string, hash: bv32)

  class ConfigSet {
    var buckets: seq<seq<Item>>
    /** The names printed so far, in order. */
    var printed: seq<string>

    /** Every name sits in the bucket of its hash; the names in the table are those
        printed. */
    ghost predicate Valid()
      reads this
    {
      && |buckets| == BUCKETS
      && (forall b, i :: 0 <= b < BUCKETS && 0 <= i < |buckets[b]| ==>
            buckets[b][i].hash == Hash(buckets[b][i].name) && buckets[b][i].name in printed)
      && (forall n :: n in printed ==> Item(n, Hash(n)) in buckets[BucketOf(Hash(n))])
    }

    constructor ()
      ensures Valid() && printed == []
    {
      buckets, printed := seq(BUCKETS, i => []), [];
    }

    /** is_defined_config: walks one chain. */
    method IsDefined(name: string, hash: bv32) returns (found: bool)
      requires Valid() && hash == Hash(name)
      ensures found <==> name in printed
    {
      var chain := buckets[BucketOf(hash)];
      var i := 0;
      while i < |chain|
        invariant i <= |chain| && forall j :: 0 <= j < i ==> chain[j].name != name
      {
        if chain[i].hash == hash && |chain[i].name| == |name| && chain[i].name == name { return true; }
        i := i + 1;
      }
      found := false;
    }

    /** use_config: prints a name the first time. */
    method Use(name: string)
      requires Valid()
      modifies this
      ensures Valid()
      ensures printed == if name in old(printed) then old(printed) else old(printed) + [name]
    {
      var hash := Hash(name);
      var found := IsDefined(name, hash);
      if found { return; }
      var b := BucketOf(hash);
      buckets := buckets[b := [Item(name, hash)] + buckets[b]];
      printed := printed + [name];
    }

    /** parse_config_file: scans the file word by word. */
    method Parse(s: string)
      requires Valid()
      modifies this
      ensures Valid()
      ensures printed == old(printed) + FirstOnly(NaiveNames(s, 1), set n | n in old(printed))
    {
      hide WordFound, Valid, NaiveNames;
      ghost var all := WordNames(s, 1);
      ghost var done: seq<string> := [];
      ghost var seen := set n | n in printed;
      WordScanIsNaive(s);
      var k := 1;
      while 4 * k < |s|
        invariant k >= 1 && Valid()
        invariant all == done + WordNames(s, k)
        invariant printed == old(printed) + FirstOnly(done, seen)
        decreases |s| - 4 * k
      {
        ghost var found := WordFound(s, k);
        assert done + WordNames(s, k) == (done + found) + WordNames(s, k + 1);
        FirstOnlyAppend(done, found, seen);
        var name := NameInWord(s, k);
        if name.Some? {
          UseStep(done, name.value, seen, old(printed));
          Use(name.value);
        } else {
          assert FirstOnly(done, seen) + FirstOnly([], seen + set n | n in done) == FirstOnly(done, seen);
        }
        done := done + found;
        k := k + 1;
      }
      assert done + [] == done;
    }
  }

  /** The body of the scan: the name, if word `k` belongs to a prefix with one. */
  method NameInWord(s: string, k: nat) returns (name: Option<string>)
    requires k >= 1
    ensures WordFound(s, k) == if name.Some? then [name.value] else []
  {
    var p := Candidate(s, k);
    if p.None? || !Occurs(s, p.value) { return None; }
    var q := p.value + 7;
    while q < |s|
      invariant p.value + 7 <= q <= |s| && NameEnd(s, p.value + 7) == NameEnd(s, q)
    {
      if !IsNameChar(s[q]) {
        var e := q;
        if s[q - 7..q] == "_MODULE" { e := q - 7; }
        return if e < p.value + 7 then None else Some(s[p.value + 7..e]);
      }
      q := q + 1;
    }
    name := None;
  }

  lemma UseStep(done: seq<string>, name: string, seen: set<string>, before: seq<string>)
    requires seen == set n | n in before
    ensures var printed := before + FirstOnly(done, seen);
            before + (FirstOnly(done, seen) + FirstOnly([name], seen + set n | n in done))
            == if name in printed then printed else printed + [name]
  {
    FirstOnlyExact(done, seen);
    assert [name][1..] == [];
    assert FirstOnly([], seen + (set n | n in done) + {name}) == [];
    assert name in before + FirstOnly(done, seen) <==> name in seen + set n | n in done;
  }
}
