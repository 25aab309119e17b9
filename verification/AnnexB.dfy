/**
  Byte streams of NAL units: start codes, and what the parser of
  pkg/server/web/server.go makes of a stream (Annex B of ITU-T H.265).
*/
module AnnexB {
  import opened Matrices
  import opened Packets
  import opened Streams

  const BUFFER_LIMIT := 131072
  const BUFFER_KEPT := 65536

  /** A start code at i: 00 00 01 or 00 00 00 01. */
  predicate IsStart(s: Vec, i: nat)
  {
    && i + 3 <= |s| && s[i] == 0 && s[i + 1] == 0
    && (s[i + 2] == 1 || (i + 4 <= |s| && s[i + 2] == 0 && s[i + 3] == 1))
  }

  function FindFrom(s: Vec, i: nat): (r: nat)
    requires i <= |s|
    ensures i <= r <= |s|
    decreases |s| - i
  {
    if i + 3 > |s| then |s| else if IsStart(s, i) then i else FindFrom(s, i + 1)
  }

  /** `findStartCode`: the first start code; the length of the data stands for "none". */
  function FindStart(s: Vec): (r: nat)
    ensures r <= |s|
  {
    FindFrom(s, 0)
  }

  lemma {:induction false} FindFacts(s: Vec, i: nat)
    requires i <= |s|
    ensures var r := FindFrom(s, i);
      && (r < |s| ==> IsStart(s, r))
      && (forall j :: i <= j < r ==> !IsStart(s, j))
    decreases |s| - i
  {
    if i + 3 <= |s| && !IsStart(s, i) {
      FindFacts(s, i + 1);
    }
  }

  lemma {:induction false} FindUnique(s: Vec, i: nat, r: nat)
    requires i <= r <= |s| && (r < |s| ==> IsStart(s, r)) && (forall j :: i <= j < r ==> !IsStart(s, j))
    ensures FindFrom(s, i) == r
    decreases |s| - i
  {
    if i < r {
      FindUnique(s, i + 1, r);
    }
  }

  /** How long the start code is that the data begins with. */
  function CodeLength(s: Vec): (len: nat)
    ensures 3 <= len <= 4
  {
    if |s| >= 4 && s[0] == 0 && s[1] == 0 && s[2] == 0 && s[3] == 1 then 4 else 3
  }

  lemma {:induction false} CodeFits(s: Vec)
    requires IsStart(s, 0)
    ensures CodeLength(s) <= |s|
  {}

  /** The complete NAL units: from a start code up to the next one. */
  function Units(s: Vec): seq<Vec>
    decreases |s|
  {
    var i := FindStart(s);
    if i == |s| then []
    else
      var t := s[i..];
      var len := CodeLength(t);
      if len > |t| then []
      else
        var e := FindStart(t[len..]);
        if e == |t| - len then [] else [t[len..len + e]] + Units(t[len + e..])
  }

  /** What is kept for more data, before the buffer limit. */
  function Kept(s: Vec): Vec
    decreases |s|
  {
    var i := FindStart(s);
    if i == |s| then s
    else
      var t := s[i..];
      var len := CodeLength(t);
      if len > |t| then t
      else
        var e := FindStart(t[len..]);
        if e == |t| - len then t else Kept(t[len + e..])
  }

  /** Without a start code only the end of a long buffer is kept. */
  function Limited(s: Vec): Vec
  {
    if FindStart(s) == |s| && |s| > BUFFER_LIMIT then s[|s| - BUFFER_KEPT..] else s
  }

  /** `Flush`: what follows the first start code, if anything does. */
  function Flushed(s: Vec): Option<Vec>
  {
    var i := FindStart(s);
    if i == |s| then None
    else
      var t := s[i..];
      if CodeLength(t) >= |t| then None else Some(t[CodeLength(t)..])
  }

  // ---------------------------------------------------------------- more data at the end

  lemma {:induction false} StartKept(a: Vec, b: Vec, i: nat)
    requires IsStart(a, i)
    ensures IsStart(a + b, i)
  {}

  lemma {:induction false} NoEarlierStart(a: Vec, b: Vec, i: nat, j: nat)
    requires j < i && IsStart(a, i) && !IsStart(a, j)
    ensures !IsStart(a + b, j)
  {}

  /** More data does not change where the first start code is. */
  lemma {:induction false} FindKept(a: Vec, b: Vec)
    requires FindStart(a) < |a|
    ensures FindStart(a + b) == FindStart(a)
  {
    hide IsStart;
    FindFacts(a, 0);
    var i := FindStart(a);
    StartKept(a, b, i);
    forall j | 0 <= j < i ensures !IsStart(a + b, j) {
      NoEarlierStart(a, b, i, j);
    }
    FindUnique(a + b, 0, i);
  }

  lemma {:induction false} StartMoved(s: Vec, i: nat, j: nat)
    requires i <= |s|
    ensures IsStart(s[i..], j) <==> IsStart(s, i + j)
  {}

  /** From its first start code on, a stream means the same. */
  lemma {:induction false} FromFirstStart(s: Vec)
    requires FindStart(s) < |s|
    ensures var t := s[FindStart(s)..];
      FindStart(t) == 0 && IsStart(t, 0) && Units(t) == Units(s) && Kept(t) == Kept(s) && Flushed(t) == Flushed(s)
  {
    hide IsStart, Units, Kept, Flushed;
    var i := FindStart(s);
    FindFacts(s, 0);
    StartMoved(s, i, 0);
    FindUnique(s[i..], 0, 0);
    SameFromStart(s, s[i..]);
  }

  lemma {:induction false} SameFromStart(s: Vec, t: Vec)
    requires FindStart(s) < |s| && t == s[FindStart(s)..] && FindStart(t) == 0
    ensures Units(t) == Units(s) && Kept(t) == Kept(s) && Flushed(t) == Flushed(s)
  {
    hide FindStart, CodeLength;
    assert t[0..] == t;
  }

  lemma {:induction false} CodeKept(t: Vec, b: Vec)
    requires IsStart(t, 0)
    ensures CodeLength(t + b) == CodeLength(t) && IsStart(t + b, 0) && FindStart(t + b) == 0
  {
    assert FindFrom(t + b, 0) == 0;
  }

  /** At a start code: the unit up to the next one, and the rest. */
  lemma {:induction false} UnitsAtStart(t: Vec)
    requires IsStart(t, 0)
    ensures var len := CodeLength(t);
      && len <= |t|
      && var e := FindStart(t[len..]);
         if e == |t| - len then Units(t) == [] && Kept(t) == t
         else Units(t) == [t[len..len + e]] + Units(t[len + e..]) && Kept(t) == Kept(t[len + e..])
  {
    hide IsStart, FindStart, CodeLength;
    CodeFits(t);
    FoundAtZero(t);
    assert t[0..] == t;
  }

  lemma {:induction false} FoundAtZero(t: Vec)
    requires IsStart(t, 0)
    ensures FindStart(t) == 0 && |t| >= 3
  {}

  /** Parsing in two steps is parsing at once. */
  lemma {:induction false} UnitsJoin(a: Vec, b: Vec)
    ensures Units(a + b) == Units(a) + Units(Kept(a) + b)
    ensures Kept(a + b) == Kept(Kept(a) + b)
    decreases |a|
  {
    hide IsStart, CodeLength, Units, Kept;
    if FindStart(a) == |a| {
      NothingFound(a);
      assert [] + Units(a + b) == Units(a + b);
    } else {
      var i := FindStart(a);
      var t := a[i..];
      FromFirstStart(a);
      FindKept(a, b);
      FromFirstStart(a + b);
      assert (a + b)[i..] == t + b;
      CodeKept(t, b);
      UnitsAtStart(t);
      UnitsAtStart(t + b);
      var len := CodeLength(t);
      var e := FindStart(t[len..]);
      if e == |t| - len {
        assert [] + Units(t + b) == Units(t + b);
      } else {
        assert (t + b)[len..] == t[len..] + b;
        FindKept(t[len..], b);
        assert (t + b)[len..len + e] == t[len..len + e] && (t + b)[len + e..] == t[len + e..] + b;
        UnitsJoin(t[len + e..], b);
        var first := [t[len..len + e]];
        assert first + (Units(t[len + e..]) + Units(Kept(t[len + e..]) + b)) == first + Units(t[len + e..]) + Units(Kept(t[len + e..]) + b);
      }
    }
  }

  lemma {:induction false} NothingFound(s: Vec)
    requires FindStart(s) == |s|
    ensures Units(s) == [] && Kept(s) == s && Flushed(s) == None
  {}

  // ------------------------------------------------------------------- the buffer limit

  /** p is as good as s: the same, or both without a start code and p the end of s. */
  predicate AsGood(p: Vec, s: Vec)
  {
    || p == s
    || (FindStart(s) == |s| && FindStart(p) == |p| && 3 <= |p| <= |s| && s[|s| - |p|..] == p)
  }

  lemma {:induction false} StartAcross(u: Vec, p: Vec, d: Vec, j: nat)
    requires |p| >= 3 && j < |u| && !IsStart(u + p, j)
    ensures !IsStart(u + p + d, j)
  {
    assert forall k :: 0 <= k < |u + p| ==> (u + p + d)[k] == (u + p)[k];
  }

  lemma {:induction false} StartBehind(u: Vec, p: Vec, d: Vec, j: nat)
    ensures IsStart(u + p + d, |u| + j) <==> IsStart(p + d, j)
  {
    assert (u + p + d)[|u|..] == p + d;
    StartMoved(u + p + d, |u|, j);
  }

  /** Dropping the front of a buffer that has no start code loses nothing. */
  lemma {:induction false} FindBehind(u: Vec, p: Vec, d: Vec)
    requires FindStart(u + p) == |u + p| && |p| >= 3
    ensures FindStart(u + p + d) == |u| + FindStart(p + d)
  {
    hide IsStart;
    FindFacts(u + p, 0);
    FindFacts(p + d, 0);
    var f := FindStart(p + d);
    StartBehind(u, p, d, f);
    forall j | 0 <= j < |u| + f ensures !IsStart(u + p + d, j) {
      if j < |u| {
        StartAcross(u, p, d, j);
      } else {
        StartBehind(u, p, d, j - |u|);
      }
    }
    FindUnique(u + p + d, 0, |u| + f);
  }

  lemma {:induction false} LimitKeepsGood(p: Vec, s: Vec, d: Vec)
    requires AsGood(p, s)
    ensures Units(p + d) == Units(s + d) && AsGood(Limited(Kept(p + d)), Kept(s + d))
    ensures Flushed(p) == Flushed(s)
  {
    hide IsStart, Units, Kept, Flushed;
    if p == s {
      LimitIsGood(Kept(s + d));
    } else {
      NothingFound(p);
      NothingFound(s);
      var u := s[..|s| - |p|];
      assert s == u + p;
      FindBehind(u, p, d);
      if FindStart(p + d) < |p + d| {
        FromFirstStart(p + d);
        FromFirstStart(s + d);
        assert (s + d)[FindStart(s + d)..] == (p + d)[FindStart(p + d)..];
        LimitIsGood(Kept(p + d));
      } else {
        NothingFound(p + d);
        NothingFound(s + d);
        var q := Limited(p + d);
        LimitIsGood(p + d);
        assert (s + d)[|u|..] == p + d;
        if q != p + d {
          assert (s + d)[|s + d| - |q|..] == (p + d)[|p + d| - |q|..];
        }
      }
    }
  }

  lemma {:induction false} LimitIsGood(s: Vec)
    ensures AsGood(Limited(s), s)
  {
    hide IsStart;
    if FindStart(s) == |s| && |s| > BUFFER_LIMIT {
      var i := |s| - BUFFER_KEPT;
      FindFacts(s, 0);
      forall j | 0 <= j < BUFFER_KEPT ensures !IsStart(s[i..], j) {
        StartMoved(s, i, j);
      }
      FindUnique(s[i..], 0, BUFFER_KEPT);
    }
  }

  /** A parser fed chunk by chunk: the units returned so far, and its buffer. */
  function Fed(chunks: seq<Vec>): (seq<Vec>, Vec)
  {
    if chunks == [] then ([], [])
    else
      var (units, buffer) := Fed(chunks[..|chunks| - 1]);
      var s := buffer + chunks[|chunks| - 1];
      (units + Units(s), Limited(Kept(s)))
  }

  /**
    However a stream is cut into chunks, and although a long buffer without a start
    code is cut down, the units and the flushed rest are those of the whole.
  */
  lemma {:induction false} ChunksDoNotMatter(chunks: seq<Vec>)
    ensures Fed(chunks).0 == Units(Joined(chunks))
    ensures AsGood(Fed(chunks).1, Kept(Joined(chunks)))
    ensures Flushed(Fed(chunks).1) == Flushed(Kept(Joined(chunks)))
  {
    hide Units, Kept, Limited, AsGood, Flushed;
    if chunks == [] {
      NothingInEmpty();
    } else {
      var m := |chunks| - 1;
      ChunksDoNotMatter(chunks[..m]);
      var a, b := Joined(chunks[..m]), chunks[m];
      UnitsJoin(a, b);
      LimitKeepsGood(Fed(chunks[..m]).1, Kept(a), b);
      LimitKeepsGood(Fed(chunks).1, Kept(a + b), []);
    }
  }

  lemma {:induction false} NothingInEmpty()
    ensures Units([]) == [] && Kept([]) == [] && AsGood([], [])
  {}

  // ------------------------------------------------------------ joining and parsing back

  /** A NAL unit, behind a long or a short start code. */
  datatype Coded = Coded(long: bool, nal: Vec)

  function Code(c: Coded): Vec
  {
    if c.long then [0, 0, 0, 1] else [0, 0, 1]
  }

  function StreamOf(units: seq<Coded>): Vec
  {
    if units == [] then [] else Code(units[0]) + units[0].nal + StreamOf(units[1..])
  }

  function NalsOf(units: seq<Coded>): (n: seq<Vec>)
    ensures |n| == |units|
  {
    seq(|units|, i requires 0 <= i < |units| => units[i].nal)
  }

  /** No start code inside, and no zero at the end. */
  predicate Clean(nal: Vec)
  {
    FindStart(nal) == |nal| && (nal != [] ==> nal[|nal| - 1] != 0)
  }

  /** A start code cannot straddle the end of a clean unit. */
  lemma {:induction false} EndFound(nal: Vec, c: Coded, more: Vec)
    requires Clean(nal)
    ensures FindStart(nal + (Code(c) + more)) == |nal|
  {
    FindFacts(nal, 0);
    var s := nal + (Code(c) + more);
    forall j | 0 <= j < |nal| ensures !IsStart(s, j) {
      assert !IsStart(nal, j);
      assert s[|nal| - 1] != 0;
    }
    FindUnique(s, 0, |nal|);
  }

  lemma {:induction false} CodeAhead(c: Coded, more: Vec)
    ensures var s := Code(c) + more;
      IsStart(s, 0) && FindStart(s) == 0 && CodeLength(s) == |Code(c)| && s[|Code(c)|..] == more
  {}

  /**
    NAL units joined by start codes come back: all but the last from `Parse`, the last
    from `Flush`.
  */
  lemma {:induction false} JoinedUnitsParseBack(units: seq<Coded>)
    requires units != [] && (forall i :: 0 <= i < |units| ==> Clean(units[i].nal)) && units[|units| - 1].nal != []
    ensures var s := StreamOf(units); var nals := NalsOf(units);
      Units(s) == nals[..|nals| - 1] && Flushed(Kept(s)) == Some(nals[|nals| - 1])
  {
    hide Clean, Units, Kept, Flushed, StreamOf;
    var nals := NalsOf(units);
    var c, rest := units[0], units[1..];
    StreamIs(units);
    if rest == [] {
      assert nals[..0] == [];
      LastUnit(c, StreamOf(units));
    } else {
      StreamIs(rest);
      JoinedUnitsParseBack(rest);
      FirstUnit(c, rest[0], rest[0].nal + StreamOf(rest[1..]), StreamOf(units));
      assert nals == [c.nal] + NalsOf(rest);
      assert nals[..|nals| - 1] == [c.nal] + NalsOf(rest)[..|rest| - 1];
    }
  }

  // ------------------------------------------------------------ what becomes of any stream

  /** Before the first start code there is none, also of what is cut off there. */
  lemma {:induction false} BeforeStart(s: Vec)
    requires FindStart(s) < |s|
    ensures var e := FindStart(s);
      FindStart(s[..e]) == e && IsStart(s[e..], 0)
  {
    hide IsStart;
    var e := FindStart(s);
    FindFacts(s, 0);
    StartMoved(s, e, 0);
    assert s == s[..e] + s[e..];
    forall j | 0 <= j < e ensures !IsStart(s[..e], j) {
      if IsStart(s[..e], j) {
        StartKept(s[..e], s[e..], j);
      }
    }
    FindUnique(s[..e], 0, e);
  }

  lemma {:induction false} CodeIs(t: Vec)
    requires IsStart(t, 0)
    ensures CodeLength(t) <= |t| && t[..CodeLength(t)] == Code(Coded(CodeLength(t) == 4, []))
  {}

  lemma {:induction false} OneMoreUnit(c: Coded, more: seq<Coded>)
    ensures StreamOf([c] + more) == Code(c) + c.nal + StreamOf(more)
    ensures NalsOf([c] + more) == [c.nal] + NalsOf(more)
  {
    assert ([c] + more)[1..] == more;
  }

  lemma {:induction false} InPieces(t: Vec, len: nat, e: nat, more: Vec, kept: Vec)
    requires len + e <= |t| && t[len + e..] == more + kept
    ensures t == t[..len] + t[len..len + e] + more + kept
  {
    assert t == t[..len] + t[len..len + e] + t[len + e..];
  }

  lemma {:induction false} ConservedFromStart(t: Vec) returns (units: seq<Coded>)
    requires IsStart(t, 0)
    ensures NalsOf(units) == Units(t) && t == StreamOf(units) + Kept(t) && IsStart(Kept(t), 0)
    ensures forall i :: 0 <= i < |units| ==> FindStart(units[i].nal) == |units[i].nal|
    decreases |t|
  {
    hide Units, Kept, IsStart, CodeLength, FindStart;
    UnitsAtStart(t);
    var len := CodeLength(t);
    var rest := t[len..];
    var e := FindStart(rest);
    if e == |rest| {
      units := [];
      assert [] + t == t;
    } else {
      hide StreamOf, NalsOf;
      CodeIs(t);
      BeforeStart(rest);
      assert rest[..e] == t[len..len + e] && rest[e..] == t[len + e..];
      var more := ConservedFromStart(t[len + e..]);
      var first := Coded(len == 4, t[len..len + e]);
      units := [first] + more;
      OneMoreUnit(first, more);
      InPieces(t, len, e, StreamOf(more), Kept(t));
    }
  }

  /**
    Any stream is what comes before its first start code, then start codes each with one of
    the units put out, none of which holds a start code, and then what is kept.
  */
  lemma {:induction false} StreamConserved(s: Vec) returns (skipped: Vec, units: seq<Coded>)
    ensures NalsOf(units) == Units(s) && s == skipped + StreamOf(units) + Kept(s)
    ensures forall i :: 0 <= i < |units| ==> FindStart(units[i].nal) == |units[i].nal|
    ensures forall j :: 0 <= j < |skipped| ==> !IsStart(s, j)
    ensures IsStart(Kept(s), 0) || (units == [] && skipped == [] && forall j :: 0 <= j ==> !IsStart(s, j))
  {
    hide Units, Kept, CodeLength;
    FindFacts(s, 0);
    var i := FindStart(s);
    if i == |s| {
      skipped, units := [], [];
      NothingFound(s);
      assert [] + StreamOf([]) + s == s;
    } else {
      skipped := s[..i];
      FromFirstStart(s);
      units := ConservedFromStart(s[i..]);
      assert s == s[..i] + s[i..];
      assert skipped + (StreamOf(units) + Kept(s)) == skipped + StreamOf(units) + Kept(s);
    }
  }

  /** Units without two zeros in a row, behind a short and a long start code. */
  lemma {:induction false} TwoUnits(a: Vec, b: Vec)
    requires NoZeros(a) && NoZeros(b)
    ensures Units([0, 0, 1] + a + [0, 0, 0, 1] + b) == [a]
    ensures Flushed(Kept([0, 0, 1] + a + [0, 0, 0, 1] + b)) == Some(b)
  {
    hide Units, Kept, Flushed, Clean;
    NoZerosIsClean(a);
    NoZerosIsClean(b);
    var units := [Coded(false, a), Coded(true, b)];
    JoinedUnitsParseBack(units);
    StreamIs(units);
    StreamIs(units[1..]);
    assert units[1..][1..] == [] && StreamOf([]) == [];
    assert StreamOf(units) == [0, 0, 1] + a + [0, 0, 0, 1] + b;
    assert NalsOf(units)[..1] == [a];
  }

  /** Not empty, no two zeros in a row, and none at the end. */
  predicate NoZeros(nal: Vec)
  {
    nal != [] && nal[|nal| - 1] != 0 && forall i :: 0 < i < |nal| ==> nal[i - 1] != 0 || nal[i] != 0
  }

  lemma {:induction false} NoZerosIsClean(nal: Vec)
    requires NoZeros(nal)
    ensures Clean(nal)
  {
    forall j | 0 <= j < |nal| ensures !IsStart(nal, j) {
      if j + 1 < |nal| {
        assert nal[j + 1 - 1] != 0 || nal[j + 1] != 0;
      }
    }
    FindUnique(nal, 0, |nal|);
  }

  /** Above 128 KiB without a start code the last 64 KiB are kept. */
  lemma {:induction false} LimitedIs(s: Vec)
    ensures Limited(s) == s || Limited(s) == s[|s| - 65536..]
    ensures Limited(s) != s <==> |s| > 131072 && forall i :: 0 <= i ==> !IsStart(s, i)
  {
    FindFacts(s, 0);
    if forall i :: 0 <= i ==> !IsStart(s, i) {
      FindUnique(s, 0, |s|);
    }
  }

  lemma {:induction false} StreamIs(units: seq<Coded>)
    requires units != []
    ensures StreamOf(units) == Code(units[0]) + (units[0].nal + StreamOf(units[1..])) && StreamOf([]) == []
  {
    assert Code(units[0]) + units[0].nal + StreamOf(units[1..]) == Code(units[0]) + (units[0].nal + StreamOf(units[1..]));
  }

  lemma {:induction false} LastUnit(c: Coded, s: Vec)
    requires s == Code(c) + (c.nal + []) && Clean(c.nal) && c.nal != []
    ensures Units(s) == [] && Flushed(Kept(s)) == Some(c.nal)
  {
    hide IsStart, CodeLength, FindStart, Clean, Units, Kept, Flushed;
    assert c.nal + [] == c.nal;
    CodeAhead(c, c.nal);
    UnitsAtStart(s);
    CleanHasNoStart(c.nal);
    FlushedAfterCode(s, Code(c), c.nal);
  }

  lemma {:induction false} FirstUnit(c: Coded, next: Coded, more: Vec, s: Vec)
    requires s == Code(c) + (c.nal + (Code(next) + more)) && Clean(c.nal)
    ensures Units(s) == [c.nal] + Units(Code(next) + more) && Kept(s) == Kept(Code(next) + more)
  {
    hide IsStart, CodeLength, FindStart, Clean, Units, Kept;
    var rest := Code(next) + more;
    CodeAhead(c, c.nal + rest);
    UnitsAtStart(s);
    EndFound(c.nal, next, more);
    var len, e := |Code(c)|, |c.nal|;
    assert |Code(next)| >= 3;
    assert s[len..] == c.nal + rest;
    assert s[len..len + e] == c.nal && s[len + e..] == rest;
  }

  lemma {:induction false} CleanHasNoStart(nal: Vec)
    requires Clean(nal)
    ensures FindStart(nal) == |nal|
  {}

  lemma {:induction false} FlushedAfterCode(s: Vec, code: Vec, nal: Vec)
    requires s == code + nal && FindStart(s) == 0 && CodeLength(s) == |code| && nal != []
    ensures Flushed(s) == Some(nal)
  {
    hide FindStart, CodeLength;
    assert s[0..] == s;
  }
}
