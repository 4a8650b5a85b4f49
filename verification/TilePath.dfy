/** Tile indices in URL paths (`tiles.rs`): groups of three digits, all but the last marked with an `x`. */
module TilePath {
  import opened Bits
  import opened LogTypes

  // ---------------------------------------------------------------- text

  /** `str::split('/')`. */
  function Split(s: string): (parts: seq<string>)
    ensures |parts| >= 1
  {
    if s == "" then [""]
    else if s[0] == '/' then [""] + Split(s[1..])
    else var more := Split(s[1..]); [[s[0]] + more[0]] + more[1..]
  }

  /** `join("/")`. */
  function Join(parts: seq<string>): string
    requires parts != []
  {
    if |parts| == 1 then parts[0] else parts[0] + ("/" + Join(parts[1..]))
  }

  lemma {:induction false} SplitLast(p: string)
    requires '/' !in p
    ensures Split(p) == [p]
  {
    if p != "" {
      SplitLast(p[1..]);
      assert [p[0]] + p[1..] == p;
    }
  }

  lemma SplitStep(s: string)
    requires s != ""
    ensures var more := Split(s[1..]);
            Split(s) == if s[0] == '/' then [""] + more else [[s[0]] + more[0]] + more[1..]
  {}

  lemma {:induction false} SplitFirst(p: string, rest: string)
    requires '/' !in p
    ensures Split(p + ("/" + rest)) == [p] + Split(rest)
  {
    hide Split;
    var s := p + ("/" + rest);
    SplitStep(s);
    if p == "" {
      assert s[0] == '/' && s[1..] == rest;
    } else {
      SplitFirst(p[1..], rest);
      assert s[0] == p[0] != '/' && s[1..] == p[1..] + ("/" + rest);
      var more := Split(s[1..]);
      assert more[0] == p[1..] && more[1..] == Split(rest);
      assert [p[0]] + p[1..] == p;
    }
  }

  lemma {:induction false} SplitOfJoin(parts: seq<string>)
    requires parts != [] && forall p <- parts :: '/' !in p
    ensures Split(Join(parts)) == parts
  {
    hide Split;
    if |parts| == 1 {
      SplitLast(parts[0]);
    } else {
      SplitFirst(parts[0], Join(parts[1..]));
      SplitOfJoin(parts[1..]);
      assert [parts[0]] + parts[1..] == parts;
    }
  }

  predicate IsDigit(c: char) { '0' <= c <= '9' }

  function DigitValue(c: char): (d: nat)
    requires IsDigit(c)
    ensures d < 10
  {
    c as int - '0' as int
  }

  function DigitChar(d: nat): (c: char)
    requires d < 10
    ensures IsDigit(c) && DigitValue(c) == d
  {
    ('0' as int + d) as char
  }

  /** `{:03}`. */
  function Three(n: nat): (s: string)
    requires n < 1000
    ensures |s| == 3
  {
    [DigitChar(n / 100), DigitChar(n / 10 % 10), DigitChar(n % 10)]
  }

  /** A three-byte `u64::from_str`: digits, the first of which may be a plus sign instead. */
  function PartNumber(s: string): (r: Option<nat>)
    ensures r.Some? ==> r.value <= 999
  {
    if |s| != 3 || !IsDigit(s[1]) || !IsDigit(s[2]) then None
    else if IsDigit(s[0]) then Some(100 * DigitValue(s[0]) + 10 * DigitValue(s[1]) + DigitValue(s[2]))
    else if s[0] == '+' then Some(10 * DigitValue(s[1]) + DigitValue(s[2]))
    else None
  }

  lemma NumberOfThree(n: nat)
    requires n < 1000
    ensures PartNumber(Three(n)) == Some(n) && '/' !in Three(n) && Three(n)[0] != 'x'
  {
    assert n == 100 * (n / 100) + 10 * (n / 10 % 10) + n % 10;
  }

  // ---------------------------------------------------------------- parsing

  /** A part of a path without its mark; the last part has none. */
  function Unmarked(part: string, last: bool): string {
    if !last && part != "" && part[0] == 'x' then part[1..] else part
  }

  function NumberAt(parts: seq<string>, i: nat): (r: Option<nat>)
    requires i < |parts|
    ensures r.Some? ==> r.value <= 999
  {
    PartNumber(Unmarked(parts[i], i == |parts| - 1))
  }

  /** The unbounded number the first `k` parts spell in base 1000, when every one is a number. */
  function Spelled(parts: seq<string>, k: nat): Option<nat>
    requires k <= |parts|
  {
    if k == 0 then Some(0)
    else match (Spelled(parts, k - 1), NumberAt(parts, k - 1))
      case (Some(v), Some(n)) => Some(v * 1000 + n)
      case _ => None
  }

  /** `parse_tile_index`, whose accumulator wraps in a release build. */
  method ParseTileIndex(path: string) returns (r: Option<nat>)
    ensures r.Some? <==> |Split(path)| <= 64 && Spelled(Split(path), |Split(path)|).Some?
    ensures r.Some? ==> r.value == Spelled(Split(path), |Split(path)|).value % U64_SIZE
  {
    hide Split, NumberAt;
    var parts := Split(path);
    if |parts| > 64 {
      return None;
    }
    var index := 0;
    for i := 0 to |parts|
      invariant Spelled(parts, i).Some? && index == Spelled(parts, i).value % U64_SIZE
    {
      var num := NumberAt(parts, i);
      if num.None? {
        StaysUnspelled(parts, i + 1, |parts|);
        return None;
      }
      WrapEarly(Spelled(parts, i).value, num.value);
      index := (index * 1000 + num.value) % U64_SIZE;
    }
    r := Some(index);
  }

  lemma {:induction false} StaysUnspelled(parts: seq<string>, k: nat, m: nat)
    requires k <= m <= |parts| && Spelled(parts, k).None?
    ensures Spelled(parts, m).None?
    decreases m
  {
    if k < m { StaysUnspelled(parts, k, m - 1); }
  }

  lemma WrapEarly(v: nat, n: nat)
    ensures (v % U64_SIZE * 1000 + n) % U64_SIZE == (v * 1000 + n) % U64_SIZE
  {
    var q, a := v / U64_SIZE, v % U64_SIZE * 1000 + n;
    assert v * 1000 + n == a + q * 1000 * U64_SIZE;
    ModPlus(a, q * 1000);
  }

  lemma {:induction false} ModPlus(a: nat, k: nat)
    ensures (a + k * U64_SIZE) % U64_SIZE == a % U64_SIZE
  {
    if k > 0 { ModPlus(a, k - 1); }
  }

  /** When the spelled number fits a `u64`, so does every intermediate value: nothing wraps. */
  lemma {:induction false} SpelledGrows(parts: seq<string>, k: nat, m: nat)
    requires k <= m <= |parts| && Spelled(parts, m).Some?
    ensures Spelled(parts, k).Some? && Spelled(parts, k).value <= Spelled(parts, m).value
    decreases m
  {
    hide NumberAt;
    if k < m { SpelledGrows(parts, k, m - 1); }
  }

  // ---------------------------------------------------------------- formatting

  predicate IsGroups(gs: seq<nat>) { forall i | 0 <= i < |gs| :: gs[i] < 1000 }

  /** The base-1000 digits of a positive number, most significant first. */
  function Groups(n: nat): (gs: seq<nat>)
    ensures IsGroups(gs)
  {
    if n == 0 then [] else Groups(n / 1000) + [n % 1000]
  }

  function Part(gs: seq<nat>, i: nat): string
    requires i < |gs| && IsGroups(gs)
  {
    if i < |gs| - 1 then "x" + Three(gs[i]) else Three(gs[i])
  }

  function Parts(gs: seq<nat>, k: nat): (ps: seq<string>)
    requires k <= |gs| && IsGroups(gs)
    ensures |ps| == k && forall i | 0 <= i < k :: ps[i] == Part(gs, i)
  {
    if k == 0 then [] else Parts(gs, k - 1) + [Part(gs, k - 1)]
  }

  /** The path of a tile index. */
  function PathOf(n: nat): string {
    if n == 0 then "000" else Join(Parts(Groups(n), |Groups(n)|))
  }

  /** Prefixing all parts but the last in place, then joining. */
  method MarkAndJoin(digits: seq<string>, ghost gs: seq<nat>) returns (s: string)
    requires gs != [] && |digits| == |gs| && IsGroups(gs)
    requires forall i | 0 <= i < |gs| :: digits[i] == Three(gs[i])
    ensures s == Join(Parts(gs, |gs|))
  {
    hide Join, Three;
    var parts := digits;
    for i := 0 to |parts| - 1
      invariant |parts| == |gs|
      invariant forall j | 0 <= j < |gs| :: parts[j] == if j < i then Part(gs, j) else digits[j]
    {
      parts := parts[i := "x" + parts[i]];
    }
    assert parts == Parts(gs, |gs|);
    s := Join(parts);
  }

  /** `slice::reverse`. */
  function Reverse(parts: seq<string>): (r: seq<string>)
    ensures |r| == |parts| && forall i | 0 <= i < |r| :: r[i] == parts[|parts| - 1 - i]
  {
    if parts == [] then [] else Reverse(parts[1..]) + [parts[0]]
  }

  /** `format_tile_index`. */
  method FormatTileIndex(n: nat) returns (s: string)
    requires n < U64_SIZE
    ensures s == PathOf(n)
  {
    hide Join, Three;
    if n == 0 {
      return "000";
    }
    var index := n;
    var parts: seq<string> := [];
    ghost var low: seq<nat> := [];
    while index > 0
      invariant Groups(index) + low == Groups(n) && IsGroups(low) && |parts| == |low|
      invariant forall i | 0 <= i < |low| :: parts[i] == Three(low[|low| - 1 - i])
    {
      assert Groups(index / 1000) + ([index % 1000] + low) == Groups(index) + low;
      parts := parts + [Three(index % 1000)];
      low := [index % 1000] + low;
      index := index / 1000;
    }
    assert low == Groups(n);
    s := MarkAndJoin(Reverse(parts), low);
  }

  // ---------------------------------------------------------------- round trip

  lemma PartReads(gs: seq<nat>, i: nat)
    requires i < |gs| && IsGroups(gs)
    ensures '/' !in Part(gs, i) && NumberAt(Parts(gs, |gs|), i) == Some(gs[i])
  {
    hide PartNumber;
    NumberOfThree(gs[i]);
    if i < |gs| - 1 { assert Part(gs, i)[1..] == Three(gs[i]); }
  }

  /** The number a prefix of the digits stands for. */
  function Value(gs: seq<nat>): nat {
    if gs == [] then 0 else Value(gs[..|gs| - 1]) * 1000 + gs[|gs| - 1]
  }

  lemma {:induction false} ValueOfGroups(n: nat)
    ensures Value(Groups(n)) == n
  {
    if n > 0 {
      ValueOfGroups(n / 1000);
      assert Groups(n)[..|Groups(n)| - 1] == Groups(n / 1000);
    }
  }

  lemma {:induction false} SpelledIsValue(gs: seq<nat>, k: nat)
    requires k <= |gs| && IsGroups(gs)
    ensures Spelled(Parts(gs, |gs|), k) == Some(Value(gs[..k]))
  {
    hide NumberAt, Parts;
    if k > 0 {
      SpelledIsValue(gs, k - 1);
      PartReads(gs, k - 1);
      assert gs[..k][..k - 1] == gs[..k - 1];
    }
  }

  lemma {:induction false} GroupCount(n: nat, k: nat)
    requires n < Pow1000(k)
    ensures |Groups(n)| <= k
  {
    if n > 0 { GroupCount(n / 1000, k - 1); }
  }

  function Pow1000(k: nat): nat { if k == 0 then 1 else 1000 * Pow1000(k - 1) }

  lemma SevenGroups()
    ensures Pow1000(7) >= U64_SIZE
  {
    assert Pow1000(3) == 1_000_000_000;
    assert Pow1000(6) == 1_000_000_000_000_000_000;
  }

  /** The formatted path of every `u64` has at most seven parts and spells exactly that number, and
      no prefix of it spells one that does not fit. */
  lemma PathSpells(n: nat)
    requires n < U64_SIZE
    ensures var parts := Split(PathOf(n)); |parts| <= 7 && Spelled(parts, |parts|) == Some(n)
    ensures forall k | 0 <= k <= |Split(PathOf(n))| ::
              Spelled(Split(PathOf(n)), k).Some? && Spelled(Split(PathOf(n)), k).value < U64_SIZE
  {
    hide Split, Join, Groups, Parts, Spelled, Value, Pow1000;
    var gs := if n == 0 then [0] else Groups(n);
    assert PathOf(n) == Join(Parts(gs, |gs|)) by { PathShape(n, gs); }
    forall p | p in Parts(gs, |gs|) ensures '/' !in p {
      var i :| 0 <= i < |gs| && Parts(gs, |gs|)[i] == p;
      PartReads(gs, i);
    }
    SplitOfJoin(Parts(gs, |gs|));
    SpelledIsValue(gs, |gs|);
    assert gs[..|gs|] == gs;
    assert |gs| <= 7 && Value(gs) == n by { GroupsMean(n, gs); }
    var parts := Split(PathOf(n));
    forall k | 0 <= k <= |parts| ensures Spelled(parts, k).Some? && Spelled(parts, k).value < U64_SIZE {
      SpelledGrows(parts, k, |parts|);
    }
  }

  lemma PathShape(n: nat, gs: seq<nat>)
    requires gs == if n == 0 then [0] else Groups(n)
    ensures gs != [] && PathOf(n) == Join(Parts(gs, |gs|))
  {
    if n == 0 {
      assert Parts(gs, 0) == [];
      assert Part(gs, 0) == "000";
    }
  }

  lemma GroupsMean(n: nat, gs: seq<nat>)
    requires n < U64_SIZE && gs == if n == 0 then [0] else Groups(n)
    ensures |gs| <= 7 && Value(gs) == n
  {
    hide Pow1000;
    if n > 0 {
      SevenGroups();
      GroupCount(n, 7);
      ValueOfGroups(n);
    } else {
      assert Value([]) == 0 && [0][..0] == [];
    }
  }

  /** Some paths, character for character. */
  lemma SomePaths()
    ensures PathOf(0) == "000" && PathOf(67) == "067" && PathOf(1234) == "x001/234"
    ensures PathOf(1234067) == "x001/x234/067"
  {
    hide Groups, Parts, Join;
    SomeGroups();
    OnePart([67]);
    TwoParts(1, 234);
    ThreeParts(1, 234, 67);
    assert Three(67) == "067" && Three(1) == "001" && Three(234) == "234";
  }

  lemma SomeGroups()
    ensures Groups(67) == [67] && Groups(1234) == [1, 234] && Groups(1234067) == [1, 234, 67]
  {
    assert Groups(0) == [];
    assert Groups(1) == [1];
    assert Groups(1234) == Groups(1) + [234];
    assert Groups(1234067) == Groups(1234) + [67];
  }

  lemma OnePart(gs: seq<nat>)
    requires |gs| == 1 && IsGroups(gs)
    ensures Join(Parts(gs, 1)) == Three(gs[0])
  {
    hide Three;
    assert Parts(gs, 1) == [Part(gs, 0)];
  }

  lemma TwoParts(a: nat, b: nat)
    requires a < 1000 && b < 1000
    ensures Join(Parts([a, b], 2)) == "x" + Three(a) + "/" + Three(b)
  {
    hide Three;
    var gs := [a, b];
    assert Parts(gs, 2) == [Part(gs, 0), Part(gs, 1)];
    assert Parts(gs, 2)[1..] == [Part(gs, 1)];
  }

  lemma ThreeParts(a: nat, b: nat, c: nat)
    requires a < 1000 && b < 1000 && c < 1000
    ensures Join(Parts([a, b, c], 3)) == "x" + Three(a) + "/x" + Three(b) + "/" + Three(c)
  {
    hide Three;
    var gs := [a, b, c];
    var ps := [Part(gs, 0), Part(gs, 1), Part(gs, 2)];
    assert Parts(gs, 3) == ps;
    assert ps[1..] == [Part(gs, 1), Part(gs, 2)] && ps[1..][1..] == [Part(gs, 2)];
    assert Join(ps[1..]) == Part(gs, 1) + ("/" + Join(ps[1..][1..]));
  }

  /** What one part of a path may be: three digits, or a plus sign and two; all but the last part may
      have one mark. */
  lemma SomeParts()
    ensures NumberAt(["067"], 0) == Some(67) && NumberAt(["+12"], 0) == Some(12)
    ensures NumberAt(["x01"], 0) == None && NumberAt(["67a"], 0) == None && NumberAt(["1"], 0) == None
    ensures NumberAt([""], 0) == None && NumberAt(["x067"], 0) == None
    ensures NumberAt(["x001", "234"], 0) == Some(1) && NumberAt(["001", "234"], 0) == Some(1)
    ensures NumberAt(["xx001", "234"], 0) == None
  {}

  /** Parsing a formatted index gives it back. */
  method FormatThenParse(n: nat) returns (r: Option<nat>)
    requires n < U64_SIZE
    ensures r == Some(n)
  {
    hide Split, Spelled, PathOf;
    PathSpells(n);
    var s := FormatTileIndex(n);
    r := ParseTileIndex(s);
  }
}
