/** The refactored engine of mesosys.go. A `Mesostic` object owns the spine,
    the spine cursor and the fragment lists of one poem; the functions before
    the class say what its methods compute, and the lemmas say what that
    means for the poem. */
module MesoSys {
  import opened Text
  import opened Arith

  /** `wider`: the larger of two widths. */
  function Wider(a: int, b: int): (r: int)
    ensures r >= a && r >= b
    ensures r == a || r == b
  {
    if a > b then a else b
  }

  // ---------------------------------------------------------------------
  // Spine

  /** The longest spine source `ParseSpine` reads. */
  const MaxLen := 32

  /** A spine as `ParseSpine` builds it: no whitespace in it. */
  predicate NoSpace(spine: seq<char>) {
    forall i :: 0 <= i < |spine| ==> !IsSpace(spine[i])
  }

  /** `s[:maxLen]` when `s` is longer than `maxLen`, `s` otherwise. */
  function Truncate(s: string): (r: string)
    ensures |r| <= MaxLen && |r| <= |s| && r == s[..|r|]
    ensures |s| <= MaxLen ==> r == s
    ensures |s| > MaxLen ==> |r| == MaxLen
  {
    if |s| > MaxLen then s[..MaxLen] else s
  }

  /** The string `ParseSpine` walks, as the code is written: the override
      `ss` cut to 32 bytes, or, when `ss` is empty, `m.Title[:titleLen]`
      with `titleLen` still 0, which discards the truncated title. */
  function SpineSource(title: string, ss: string): (r: string)
    ensures ss == "" ==> r == ""
    ensures ss != "" ==> r == Truncate(ss)
  {
    if ss == "" then title[..0] else Truncate(ss)
  }

  /** The string `ParseSpine` is documented to walk: the override when it is
      non-empty, the title otherwise, either cut to 32 bytes. */
  function IntendedSpineSource(title: string, ss: string): (r: string)
    ensures var src := if ss == "" then title else ss;
      && |r| == (if |src| < MaxLen then |src| else MaxLen)
      && r == src[..|r|]
  {
    if ss == "" then Truncate(title) else Truncate(ss)
  }

  /** What the `ParseSpine` loop appends for `s`: each non-whitespace
      character, lowered, in order. */
  function Normalize(s: string): (r: seq<char>)
    ensures |r| <= |s|
    ensures NoSpace(r)
    ensures forall i :: 0 <= i < |r| ==> Lower(r[i]) == r[i]
  {
    if s == [] then []
    else Normalize(s[..|s| - 1]) + (if IsSpace(s[|s| - 1]) then [] else [Lower(s[|s| - 1])])
  }

  /** Normalizing a spine again changes nothing. */
  lemma {:induction false} NormalizeIdempotent(s: string)
    ensures Normalize(Normalize(s)) == Normalize(s)
  {
    if s != [] {
      var t := Normalize(s[..|s| - 1]);
      NormalizeIdempotent(s[..|s| - 1]);
      if !IsSpace(s[|s| - 1]) {
        var x := Lower(s[|s| - 1]);
        var u := t + [x];
        assert u[..|u| - 1] == t;
        assert !IsSpace(x) && Lower(x) == x;
      } else {
        assert Normalize(s) == t + [] == t;
      }
    }
  }

  /** A source with a non-whitespace character gives a non-empty spine. */
  lemma {:induction false} NormalizeNonEmpty(s: string, i: nat)
    requires i < |s| && !IsSpace(s[i])
    ensures Normalize(s) != []
  {
    if i < |s| - 1 {
      NormalizeNonEmpty(s[..|s| - 1], i);
    }
  }

  /** `ParseSpine` appends at most 32 characters, none of them whitespace,
      and appends nothing exactly when the chosen source is all
      whitespace. */
  lemma {:induction false} ParseSpineBounds(title: string, ss: string)
    ensures var src := IntendedSpineSource(title, ss);
      var spine := Normalize(src);
      && |spine| <= MaxLen && NoSpace(spine)
      && (spine == [] <==> forall j :: 0 <= j < |src| ==> IsSpace(src[j]))
  {
    var src := IntendedSpineSource(title, ss);
    if forall j :: 0 <= j < |src| ==> IsSpace(src[j]) {
      NormalizeAllSpace(src);
    } else {
      var i :| 0 <= i < |src| && !IsSpace(src[i]);
      NormalizeNonEmpty(src, i);
    }
  }

  /** Normalizing a prefix of `s` gives a prefix of the spine of `s`. */
  lemma {:induction false} NormalizePrefix(s: string, k: nat)
    requires k <= |s|
    ensures Normalize(s[..k]) <= Normalize(s)
    decreases |s| - k
  {
    if k < |s| {
      var t := s[..|s| - 1];
      assert t[..k] == s[..k];
      NormalizePrefix(t, k);
    } else {
      assert s[..k] == s;
    }
  }

  /** One character contributes itself, lowered, unless it is whitespace. */
  lemma {:induction false} NormalizeChar(c: char)
    ensures Normalize([c]) == if IsSpace(c) then [] else [Lower(c)]
  {
    assert [c][..0] == [];
  }

  /** One more character of the source adds itself, lowered, to the spine
      unless it is whitespace. */
  lemma NormalizeSnoc(s: string, i: nat)
    requires i < |s|
    ensures Normalize(s[..i + 1]) == Normalize(s[..i]) + (if IsSpace(s[i]) then [] else [Lower(s[i])])
  {
    assert s[..i + 1][..i] == s[..i];
  }

  /** The spine of a concatenation is the concatenation of the spines, so
      with `NormalizeChar` the spine of `s` is fixed character by character:
      every non-whitespace character of `s`, lowered, in order. */
  lemma {:induction false} NormalizeAppend(a: string, b: string)
    ensures Normalize(a + b) == Normalize(a) + Normalize(b)
    decreases |b|
  {
    if b == [] {
      assert a + b == a;
    } else {
      var b' := b[..|b| - 1];
      assert (a + b)[..|a + b| - 1] == a + b';
      assert (a + b)[|a + b| - 1] == b[|b| - 1];
      NormalizeAppend(a, b');
    }
  }

  /** As written, the title never reaches the spine: the title of the test
      in mesosys_test.go gives an empty spine where `m` and `h` are expected
      at positions 0 and 5, and the intended source puts them there. */
  lemma {:induction false} TitleSpineDropped()
    ensures Normalize(SpineSource("music has the rights to children", "")) == []
    ensures var spine := Normalize(IntendedSpineSource("music has the rights to children", ""));
      |spine| >= 6 && spine[..6] == "musich"
  {
    var t := "music has the rights to children";
    assert Truncate(t) == t;
    var h := t[..7];
    assert h == "music h";
    assert Normalize(h[..1]) == "m";
    assert h[..2][..1] == h[..1];
    assert Normalize(h[..2]) == "mu";
    assert h[..3][..2] == h[..2];
    assert Normalize(h[..3]) == "mus";
    assert h[..4][..3] == h[..3];
    assert Normalize(h[..4]) == "musi";
    assert h[..5][..4] == h[..4];
    assert Normalize(h[..5]) == "music";
    assert h[..6][..5] == h[..5];
    assert Normalize(h[..6]) == "music";
    assert h[..6] == h[..6];
    assert Normalize(h) == "musich";
    NormalizePrefix(t, 7);
  }

  /** With the intended source, a title holding a non-whitespace character in
      its first 32 bytes always yields a non-empty spine, starting with the
      lowered first such character. */
  lemma {:induction false} IntendedSpineFromTitle(title: string, i: nat)
    requires i < |title| && i < MaxLen && !IsSpace(title[i])
    requires forall j :: 0 <= j < i ==> IsSpace(title[j])
    ensures var spine := Normalize(IntendedSpineSource(title, ""));
      spine != [] && spine[0] == Lower(title[i])
  {
    var t := Truncate(title);
    assert t[i] == title[i];
    NormalizeNonEmpty(t, i);
    NormalizeFirst(t, i);
  }

  /** The first character of a normalized string is the lowered first
      non-whitespace character. */
  lemma {:induction false} NormalizeFirst(s: string, i: nat)
    requires i < |s| && !IsSpace(s[i])
    requires forall j :: 0 <= j < i ==> IsSpace(s[j])
    ensures Normalize(s) != [] && Normalize(s)[0] == Lower(s[i])
  {
    NormalizeNonEmpty(s, i);
    if i < |s| - 1 {
      NormalizeFirst(s[..|s| - 1], i);
    } else {
      assert Normalize(s[..|s| - 1]) == [] by {
        NormalizeAllSpace(s[..|s| - 1]);
      }
    }
  }

  /** A string of whitespace normalizes to nothing. */
  lemma {:induction false} NormalizeAllSpace(s: string)
    requires forall j :: 0 <= j < |s| ==> IsSpace(s[j])
    ensures Normalize(s) == []
  {
    if s != [] {
      NormalizeAllSpace(s[..|s| - 1]);
    }
  }

  // ---------------------------------------------------------------------
  // One line

  /** The outcome of scanning one segment: no spine character, or the west
      and east fragments before trimming. */
  datatype Carve = Miss | Hit(west: string, east: string)

  /** What a hit of `ss` in `line` is, with `nx` the next spine character:
      the west part is `line` up to its FIRST `ss`, that `ss` uppercased;
      the east part is the text right after it, as far as (not including)
      the next `nx` or repeated `ss`, or the end of the line. */
  predicate IsHit(line: string, ss: char, nx: char, west: string, east: string) {
    var k := |west| - 1;
    && 0 <= k < |line| && line[k] == ss && ss !in line[..k]
    && west == line[..k] + [Upper(ss)]
    && k + 1 + |east| <= |line| && east == line[k + 1..k + 1 + |east|]
    && ss !in east && nx !in east
    && (k + 1 + |east| == |line| || line[k + 1 + |east|] == ss || line[k + 1 + |east|] == nx)
  }

  /** The rune loop of `FormatLine` from position `i` of an already lowered
      segment, in state `mode`, with the characters collected so far: state
      `West` collects until the first `ss`, which it collects uppercased and
      switches to `East`; state `East` collects until an `nx` or a repeated
      `ss`, which ends the scan. A scan that ends in `West` is a miss. */
  function ScanFrom(line: string, ss: char, nx: char, i: nat, mode: Mode, west: string, east: string): (r: Carve)
    requires i <= |line|
    requires mode == East ==> west != [] && west[|west| - 1] == Upper(ss)
    ensures r.Hit? <==> mode == East || IndexFrom(line, ss, i) < |line|
    ensures r.Hit? ==> r.west != [] && r.west[|r.west| - 1] == Upper(ss)
    decreases |line| - i
  {
    if i == |line| then
      if mode == West then Miss else Hit(west, east)
    else
      var c := line[i];
      if c != ss then
        if mode == East && c == nx then Hit(west, east)
        else if mode == West then ScanFrom(line, ss, nx, i + 1, West, west + [c], east)
        else ScanFrom(line, ss, nx, i + 1, East, west, east + [c])
      else if mode == East then Hit(west, east)
      else ScanFrom(line, ss, nx, i + 1, East, west + [Upper(c)], east)
  }

  /** The whole scan of a lowered segment. It hits exactly when the segment
      holds `ss`, and the west part then ends with `ss` uppercased. */
  function Scan(line: string, ss: char, nx: char): (r: Carve)
    ensures r.Hit? <==> ss in line
    ensures r.Hit? ==> r.west != [] && r.west[|r.west| - 1] == Upper(ss)
  {
    ScanFrom(line, ss, nx, 0, West, [], [])
  }

  /** Once in state `East` after the first `ss` at `k`, the scan stops where
      `IsHit` says the east part ends. */
  lemma {:induction false} ScanFromEast(line: string, ss: char, nx: char, i: nat, k: nat, west: string, east: string)
    requires k < i <= |line| && line[k] == ss && ss !in line[..k]
    requires west == line[..k] + [Upper(ss)] && east == line[k + 1..i] && ss !in east && nx !in east
    ensures var r := ScanFrom(line, ss, nx, i, East, west, east);
      r.Hit? && IsHit(line, ss, nx, r.west, r.east)
    decreases |line| - i
  {
    if i < |line| && line[i] != ss && line[i] != nx {
      assert line[k + 1..i + 1] == east + [line[i]];
      ScanFromEast(line, ss, nx, i + 1, k, west, east + [line[i]]);
    }
  }

  /** In state `West`, with no `ss` before `i` and one at or after it, the
      scan finds the hit `IsHit` describes. */
  lemma {:induction false} ScanFromWest(line: string, ss: char, nx: char, i: nat)
    requires i <= |line| && ss !in line[..i] && IndexFrom(line, ss, i) < |line|
    ensures var r := ScanFrom(line, ss, nx, i, West, line[..i], []);
      r.Hit? && IsHit(line, ss, nx, r.west, r.east)
    decreases |line| - i
  {
    if line[i] == ss {
      assert line[i + 1..i + 1] == [];
      ScanFromEast(line, ss, nx, i + 1, i, line[..i] + [Upper(ss)], []);
    } else {
      assert line[..i + 1] == line[..i] + [line[i]];
      ScanFromWest(line, ss, nx, i + 1);
    }
  }

  /** A hit of `Scan` is the one `IsHit` describes: west ends at the first
      spine character, east runs up to the next spine character, a repeat of
      the current one, or the end of the line. */
  lemma {:induction false} ScanHit(line: string, ss: char, nx: char)
    requires ss in line
    ensures Scan(line, ss, nx).Hit?
    ensures IsHit(line, ss, nx, Scan(line, ss, nx).west, Scan(line, ss, nx).east)
  {
    assert line[..0] == [];
    ScanFromWest(line, ss, nx, 0);
  }

  /** A hit is determined by the line and the two spine characters: the
      description `IsHit` leaves no choice. */
  lemma {:induction false} HitUnique(line: string, ss: char, nx: char, w1: string, e1: string, w2: string, e2: string)
    requires IsHit(line, ss, nx, w1, e1) && IsHit(line, ss, nx, w2, e2)
    ensures w1 == w2 && e1 == e2
  {
  }

  /** The rune loop of `FormatLine`, run over the lowered line: state `West`
      copies characters until the first `ssChar`, which it uppercases; state
      `East` copies characters until an `nxChar` or a repeated `ssChar`. */
  method ScanLine(lowerline: string, ssChar: char, nxChar: char) returns (found: bool, west: string, east: string)
    ensures found <==> ssChar in lowerline
    ensures found ==> Scan(lowerline, ssChar, nxChar) == Hit(west, east)
  {
    west := [];
    east := [];
    var mode := West;
    var i := 0;
    while i < |lowerline|
      invariant 0 <= i <= |lowerline|
      invariant mode == East ==> west != [] && west[|west| - 1] == Upper(ssChar)
      invariant ScanFrom(lowerline, ssChar, nxChar, i, mode, west, east) == Scan(lowerline, ssChar, nxChar)
    {
      var c := lowerline[i];
      if c != ssChar {
        if mode == East && c == nxChar {
          break;
        }
        if mode == West {
          west := west + [c];
        } else {
          east := east + [c];
        }
      } else {
        if mode == East {
          break;
        }
        west := west + [Upper(c)];
        mode := East;
      }
      i := i + 1;
    }
    found := mode == East;
  }

  // ---------------------------------------------------------------------
  // The session state and what one segment does to it

  /** The fields of `Mesostic` that `BuildMeso` and `FormatLine` update. */
  datatype Session = Session(
    spineIdx: int,
    width: int,
    wWidth: int,
    mLinesIdx: int,
    lineWest: seq<string>,
    lineEast: seq<string>,
    emptyLine: seq<int>)

  /** The state of a freshly made `Mesostic`. */
  function Fresh(): Session {
    Session(0, 0, 0, 0, [], [], [])
  }

  /** The cursor is an index into the spine (or 0 while the spine is empty). */
  predicate CursorOk(spine: seq<char>, idx: int) {
    0 <= idx && (idx < |spine| || idx == 0)
  }

  /** The cursor position after `i` on a spine of `n` characters: the next
      one, wrapping from the last back to the first. */
  function Succ(i: int, n: int): (r: int)
    requires 0 <= i < n
    ensures 0 <= r < n
  {
    if i + 1 < n then i + 1 else 0
  }

  /** `Succ` is the Go expression `(i + 1) % n` on a valid cursor. */
  lemma {:induction false} SuccMod(i: int, n: int)
    requires 0 <= i < n
    ensures Succ(i, n) == (i + 1) % n
  {
    if i + 1 < n {
      DivMod(i + 1, n, 0, i + 1);
    } else {
      DivMod(i + 1, n, 1, 0);
    }
  }

  /** The cursor after `m` moves from `c`. */
  function Advance(c: int, m: nat, n: int): (r: int)
    requires 0 <= c < n
    ensures 0 <= r < n
  {
    if m == 0 then c else Succ(Advance(c, m - 1, n), n)
  }

  /** `m` moves of the cursor land on `(c + m) % n`, which is where `m`
      evaluations of the Go expression `(SpineIdx+1)%len(Spine)` put it. */
  lemma {:induction false} AdvanceMod(c: int, m: nat, n: int)
    requires 0 <= c < n
    ensures Advance(c, m, n) == (c + m) % n
  {
    if m == 0 {
      DivMod(c, n, 0, c);
    } else {
      AdvanceMod(c, m - 1, n);
      CursorAdvance(c + m - 1, Advance(c, m - 1, n), n);
    }
  }

  /** From the first spine character, `m` moves land on `m % n`. */
  lemma {:induction false} AdvanceFromStart(m: nat, n: int)
    requires 0 < n
    ensures Advance(0, m, n) == m % n
  {
    AdvanceMod(0, m, n);
  }

  /** The fragment lists have one entry per match, and the two widths bound
      every fragment. */
  predicate WellFormed(st: Session) {
    && |st.lineWest| == |st.lineEast|
    && 0 <= st.wWidth && 0 <= st.width
    && (forall i :: 0 <= i < |st.lineWest| ==> |st.lineWest[i]| <= st.wWidth)
    && (forall i :: 0 <= i < |st.lineWest| ==> |st.lineWest[i]| + |st.lineEast[i]| <= st.width)
  }

  /** The session after a hit: both fragments trimmed and appended, and the
      two widths raised to cover them. */
  function Record(st: Session, west: string, east: string): (r: Session)
    ensures WellFormed(st) ==> WellFormed(r)
  {
    var westline := TrimSpace(west);
    var eastline := TrimSpace(east);
    st.(lineWest := st.lineWest + [westline],
        lineEast := st.lineEast + [eastline],
        width := Wider(|westline + eastline|, st.width),
        wWidth := Wider(|westline|, st.wWidth))
  }

  /** `FormatLine`: the flag it returns and the fields after it. It reports
      a match exactly when the lowered line holds the current spine
      character, and then appends one fragment to each list; on a miss (or
      with an empty spine) nothing changes. */
  function Format(spine: seq<char>, st: Session, line: string): (r: (bool, Session))
    requires CursorOk(spine, st.spineIdx)
    ensures r.0 <==> |spine| > 0 && spine[st.spineIdx] in LowerStr(line)
    ensures !r.0 ==> r.1 == st
    ensures r.0 ==> |r.1.lineWest| == |st.lineWest| + 1 && |r.1.lineEast| == |st.lineEast| + 1
    ensures r.1.spineIdx == st.spineIdx && r.1.mLinesIdx == st.mLinesIdx && r.1.emptyLine == st.emptyLine
    ensures WellFormed(st) ==> WellFormed(r.1)
  {
    if |spine| == 0 then (false, st)
    else
      var c := Scan(LowerStr(line), spine[st.spineIdx], spine[Succ(st.spineIdx, |spine|)]);
      if c.Miss? then (false, st) else (true, Record(st, c.west, c.east))
  }

  /** A hit of the scanner is what `Format` records. */
  lemma {:induction false} FormatHit(spine: seq<char>, st: Session, line: string, west: string, east: string)
    requires CursorOk(spine, st.spineIdx) && |spine| > 0
    requires Scan(LowerStr(line), spine[st.spineIdx], spine[Succ(st.spineIdx, |spine|)]) == Hit(west, east)
    ensures Format(spine, st, line) == (true, Record(st, west, east))
  {
  }

  /** One turn of the `BuildMeso` loop: `FormatLine`, then the cursor moves on
      a match and the segment index is recorded as empty on a miss. */
  function Step(spine: seq<char>, st: Session, line: string): (r: Session)
    requires CursorOk(spine, st.spineIdx)
    ensures CursorOk(spine, r.spineIdx)
    ensures WellFormed(st) ==> WellFormed(r)
    ensures r.mLinesIdx == st.mLinesIdx + 1
    ensures Format(spine, st, line).0 ==>
      && |spine| > 0 && r.spineIdx == Succ(st.spineIdx, |spine|) && r.emptyLine == st.emptyLine
      && r.lineWest == Format(spine, st, line).1.lineWest && r.lineEast == Format(spine, st, line).1.lineEast
    ensures !Format(spine, st, line).0 ==>
      && r.spineIdx == st.spineIdx && r.emptyLine == st.emptyLine + [st.mLinesIdx]
      && r.lineWest == st.lineWest && r.lineEast == st.lineEast
  {
    var (ok, s1) := Format(spine, st, line);
    if ok then s1.(spineIdx := Succ(s1.spineIdx, |spine|), mLinesIdx := s1.mLinesIdx + 1)
    else s1.(emptyLine := s1.emptyLine + [s1.mLinesIdx], mLinesIdx := s1.mLinesIdx + 1)
  }

  /** The `BuildMeso` loop over all segments, in order. */
  function Build(spine: seq<char>, st: Session, segs: seq<string>): (r: Session)
    requires CursorOk(spine, st.spineIdx)
    ensures CursorOk(spine, r.spineIdx)
  {
    if segs == [] then st
    else Step(spine, Build(spine, st, segs[..|segs| - 1]), segs[|segs| - 1])
  }

  /** Building over one more segment is one more `Step`. */
  lemma {:induction false} BuildSnoc(spine: seq<char>, st: Session, segs: seq<string>, i: nat)
    requires CursorOk(spine, st.spineIdx) && i < |segs|
    ensures Build(spine, st, segs[..i + 1]) == Step(spine, Build(spine, st, segs[..i]), segs[i])
  {
    assert segs[..i + 1][..i] == segs[..i];
  }

  /** On a match, `Step` is the session `Format` recorded, with the cursor
      moved on and the segment index advanced. */
  lemma {:induction false} StepHit(spine: seq<char>, st: Session, line: string, s1: Session)
    requires CursorOk(spine, st.spineIdx) && |spine| > 0
    requires Format(spine, st, line) == (true, s1)
    ensures Step(spine, st, line) == s1.(spineIdx := Succ(st.spineIdx, |spine|), mLinesIdx := st.mLinesIdx + 1)
  {
  }

  /** On a miss, `Step` records the segment index as empty and advances it. */
  lemma {:induction false} StepMiss(spine: seq<char>, st: Session, line: string)
    requires CursorOk(spine, st.spineIdx) && !Format(spine, st, line).0
    ensures Step(spine, st, line) == st.(emptyLine := st.emptyLine + [st.mLinesIdx], mLinesIdx := st.mLinesIdx + 1)
  {
  }

  /** Whether segment `j` matched when `Build` reached it. */
  predicate Matched(spine: seq<char>, st: Session, segs: seq<string>, j: nat)
    requires CursorOk(spine, st.spineIdx) && j < |segs|
  {
    Format(spine, Build(spine, st, segs[..j]), segs[j]).0
  }

  /** Building keeps the fragment lists paired and bounded by the widths. */
  lemma {:induction false} BuildWellFormed(spine: seq<char>, st: Session, segs: seq<string>)
    requires CursorOk(spine, st.spineIdx) && WellFormed(st)
    ensures WellFormed(Build(spine, st, segs))
  {
    if segs != [] {
      BuildWellFormed(spine, st, segs[..|segs| - 1]);
    }
  }

  /** The two widths are the running maxima `wider` keeps: both 0 before
      any fragment, and afterwards each is reached by some fragment. With
      `WellFormed`, which bounds every fragment by them, each is exactly the
      largest fragment width. */
  predicate Tight(st: Session) {
    && |st.lineWest| == |st.lineEast|
    && (st.lineWest == [] ==> st.wWidth == 0 && st.width == 0)
    && (st.lineWest != [] ==>
          && (exists i :: 0 <= i < |st.lineWest| && |st.lineWest[i]| == st.wWidth)
          && (exists i :: 0 <= i < |st.lineWest| && |st.lineWest[i]| + |st.lineEast[i]| == st.width))
  }

  /** Recording a hit keeps both widths at the running maxima. */
  lemma {:induction false} RecordTight(st: Session, west: string, east: string)
    requires Tight(st)
    ensures Tight(Record(st, west, east))
  {
    var r := Record(st, west, east);
    var n := |st.lineWest|;
    assert r.lineWest[n] == TrimSpace(west) && r.lineEast[n] == TrimSpace(east);
    if r.wWidth != |r.lineWest[n]| {
      assert r.wWidth == st.wWidth && st.lineWest != [];
      var i :| 0 <= i < n && |st.lineWest[i]| == st.wWidth;
      assert r.lineWest[i] == st.lineWest[i];
    }
    if r.width != |r.lineWest[n]| + |r.lineEast[n]| {
      assert r.width == st.width && st.lineWest != [];
      var i :| 0 <= i < n && |st.lineWest[i]| + |st.lineEast[i]| == st.width;
      assert r.lineWest[i] == st.lineWest[i] && r.lineEast[i] == st.lineEast[i];
    }
  }

  /** One segment keeps the widths at the running maxima. */
  lemma {:induction false} StepTight(spine: seq<char>, st: Session, line: string)
    requires CursorOk(spine, st.spineIdx) && Tight(st)
    ensures Tight(Step(spine, st, line))
  {
    if |spine| > 0 {
      var c := Scan(LowerStr(line), spine[st.spineIdx], spine[Succ(st.spineIdx, |spine|)]);
      if c.Hit? {
        RecordTight(st, c.west, c.east);
      }
    }
  }

  /** Building keeps the widths at the running maxima, so from a fresh
      session they are the widest fragments and never more. */
  lemma {:induction false} BuildTight(spine: seq<char>, st: Session, segs: seq<string>)
    requires CursorOk(spine, st.spineIdx) && Tight(st)
    ensures Tight(Build(spine, st, segs))
  {
    if segs != [] {
      BuildTight(spine, st, segs[..|segs| - 1]);
      StepTight(spine, Build(spine, st, segs[..|segs| - 1]), segs[|segs| - 1]);
    }
  }

  /** Once a fragment is recorded, some aligned line carries no padding: its
      west fragment starts in column 0. `BuildWellFormed` and `BuildTight`
      give the requires for every session built from `Fresh()`. */
  lemma {:induction false} FlushLine(st: Session)
    requires WellFormed(st) && Tight(st) && st.lineWest != []
    ensures exists i :: (0 <= i < |st.lineWest| &&
      FullLines(st.lineWest, st.lineEast, st.wWidth)[i] == st.lineWest[i] + st.lineEast[i])
  {
    var i :| 0 <= i < |st.lineWest| && |st.lineWest[i]| == st.wWidth;
    FullLinesAt(st.lineWest, st.lineEast, st.wWidth, i);
    FullLineFlush(st.wWidth, st.lineWest[i], st.lineEast[i]);
  }

  /** A west fragment as wide as the column needs no padding. */
  lemma FullLineFlush(wWidth: int, west: string, east: string)
    requires |west| == wWidth
    ensures FullLine(wWidth, west, east) == west + east
  {
    assert Spaces(0) == [];
  }

  /** Building only appends: earlier fragments and `emptyLine` entries stay,
      every segment raises `mLinesIdx` once, and each segment gives either a
      new fragment pair or a new `emptyLine` entry. */
  lemma {:induction false} BuildGrows(spine: seq<char>, st: Session, segs: seq<string>)
    requires CursorOk(spine, st.spineIdx)
    ensures var r := Build(spine, st, segs);
      && st.lineWest <= r.lineWest && st.lineEast <= r.lineEast && st.emptyLine <= r.emptyLine
      && |r.lineEast| - |st.lineEast| == |r.lineWest| - |st.lineWest|
      && r.mLinesIdx == st.mLinesIdx + |segs|
      && (|r.lineWest| - |st.lineWest|) + (|r.emptyLine| - |st.emptyLine|) == |segs|
  {
    if segs != [] {
      BuildGrows(spine, st, segs[..|segs| - 1]);
    }
  }

  /** `idx` is where the cursor stands after `m` moves from `c` on a spine of
      `n` characters. */
  predicate CursorAfter(c: int, m: int, n: int, idx: int)
    requires 0 <= c < n
  {
    0 <= m && idx == Advance(c, m, n)
  }

  /** One more move. */
  lemma {:induction false} CursorAfterStep(c: int, m: int, n: int, x: int, y: int)
    requires 0 <= c < n && 0 <= x < n
    requires CursorAfter(c, m, n, x) && y == Succ(x, n)
    ensures CursorAfter(c, m + 1, n, y)
  {
  }

  /** One turn of the build loop moves the cursor once on a match and not
      at all on a miss, so `CursorAfter` keeps counting fragments. */
  lemma {:induction false} CursorStep(spine: seq<char>, c0: int, n0: int, p: Session, line: string)
    requires CursorOk(spine, p.spineIdx) && 0 <= c0 < |spine|
    requires CursorAfter(c0, |p.lineWest| - n0, |spine|, p.spineIdx)
    ensures var r := Step(spine, p, line);
      CursorAfter(c0, |r.lineWest| - n0, |spine|, r.spineIdx)
  {
    var r := Step(spine, p, line);
    if Format(spine, p, line).0 {
      CursorAfterStep(c0, |p.lineWest| - n0, |spine|, p.spineIdx, r.spineIdx);
    }
  }

  /** The cursor moves by exactly one, wrapping, per matched segment and
      never on a miss: after a build it stands where as many moves as there
      are new fragments put it. */
  lemma {:induction false} BuildCursor(spine: seq<char>, st: Session, segs: seq<string>)
    requires CursorOk(spine, st.spineIdx) && |spine| > 0
    ensures var r := Build(spine, st, segs);
      CursorAfter(st.spineIdx, |r.lineWest| - |st.lineWest|, |spine|, r.spineIdx)
  {
    if segs != [] {
      var init := segs[..|segs| - 1];
      BuildCursor(spine, st, init);
      CursorStep(spine, st.spineIdx, |st.lineWest|, Build(spine, st, init), segs[|segs| - 1]);
    }
  }

  /** Moving a cursor that stands at `a % n` gives `(a + 1) % n`. */
  lemma {:induction false} CursorAdvance(a: int, c: int, n: int)
    requires 0 <= c < n && c == a % n
    ensures Succ(c, n) == (a + 1) % n
  {
    SuccMod(c, n);
    ModSucc(a, n);
  }

  /** `emptyLine` receives exactly the indices of the unmatched segments:
      `mLinesIdx + j` is in it after the build if and only if segment `j`
      missed, and every entry stays below `mLinesIdx`. */
  lemma {:induction false} BuildEmptyLines(spine: seq<char>, st: Session, segs: seq<string>)
    requires CursorOk(spine, st.spineIdx)
    requires forall i :: 0 <= i < |st.emptyLine| ==> st.emptyLine[i] < st.mLinesIdx
    ensures var r := Build(spine, st, segs);
      && (forall i :: 0 <= i < |r.emptyLine| ==> r.emptyLine[i] < r.mLinesIdx)
      && (forall j :: 0 <= j < |segs| ==>
            (st.mLinesIdx + j in r.emptyLine <==> !Matched(spine, st, segs, j)))
  {
    if segs != [] {
      var n := |segs| - 1;
      var init := segs[..n];
      BuildEmptyLines(spine, st, init);
      var p := Build(spine, st, init);
      var r := Build(spine, st, segs);
      assert p.mLinesIdx == st.mLinesIdx + n by {
        BuildGrows(spine, st, init);
      }
      assert r == Step(spine, p, segs[n]);
      var hit := Format(spine, p, segs[n]).0;
      assert hit ==> r.emptyLine == p.emptyLine;
      assert !hit ==> r.emptyLine == p.emptyLine + [p.mLinesIdx];
      assert r.mLinesIdx == p.mLinesIdx + 1;
      forall i | 0 <= i < |p.emptyLine|
        ensures p.emptyLine[i] != p.mLinesIdx
      {
      }
      assert p.mLinesIdx !in p.emptyLine;
      forall i | 0 <= i < |r.emptyLine|
        ensures r.emptyLine[i] < r.mLinesIdx
      {
        if i < |p.emptyLine| {
          assert r.emptyLine[i] == p.emptyLine[i];
        }
      }
      forall j | 0 <= j < |segs|
        ensures st.mLinesIdx + j in r.emptyLine <==> !Matched(spine, st, segs, j)
      {
        if j < n {
          assert segs[..j] == init[..j];
          assert Matched(spine, st, segs, j) == Matched(spine, st, init, j);
          assert st.mLinesIdx + j in r.emptyLine <==> st.mLinesIdx + j in p.emptyLine;
        } else {
          assert segs[..j] == init;
          assert Matched(spine, st, segs, j) == hit;
        }
      }
    }
  }

  /** From fragment `n0` on, fragment `n0 + j` ends with the uppercased
      spine character the cursor reaches after `j` moves from `c0`. */
  predicate Capitals(spine: seq<char>, c0: int, n0: nat, lw: seq<string>)
    requires 0 <= c0 < |spine|
  {
    forall j :: n0 <= j < |lw| ==>
      lw[j] != [] && lw[j][|lw[j]| - 1] == Upper(spine[Advance(c0, j - n0, |spine|)])
  }

  /** Appending a fragment that ends with the capital under the cursor
      keeps `Capitals`. */
  lemma {:induction false} CapitalAppend(spine: seq<char>, c0: int, n0: nat, lw: seq<string>, idx: int, w: string)
    requires 0 <= c0 < |spine| && 0 <= idx < |spine|
    requires Capitals(spine, c0, n0, lw) && CursorAfter(c0, |lw| - n0, |spine|, idx)
    requires w != [] && w[|w| - 1] == Upper(spine[idx])
    ensures Capitals(spine, c0, n0, lw + [w])
  {
  }

  /** One turn of the build loop keeps `Capitals`: a match appends the
      trimmed west part, which ends with the capital under the cursor. */
  lemma {:induction false} CapitalsStep(spine: seq<char>, c0: int, n0: nat, p: Session, line: string)
    requires CursorOk(spine, p.spineIdx) && 0 <= c0 < |spine| && NoSpace(spine)
    requires CursorAfter(c0, |p.lineWest| - n0, |spine|, p.spineIdx)
    requires Capitals(spine, c0, n0, p.lineWest)
    ensures Capitals(spine, c0, n0, Step(spine, p, line).lineWest)
  {
    var ss := spine[p.spineIdx];
    var c := Scan(LowerStr(line), ss, spine[Succ(p.spineIdx, |spine|)]);
    if c.Hit? {
      assert !IsSpace(Upper(ss));
      TrimKeepsLast(c.west);
      assert Step(spine, p, line).lineWest == p.lineWest + [TrimSpace(c.west)];
      CapitalAppend(spine, c0, n0, p.lineWest, p.spineIdx, TrimSpace(c.west));
    }
  }

  /** Read top to bottom, the new west fragments end with the spine
      characters in rotation order, uppercased: `Capitals` holds from the
      first new fragment and the starting cursor. */
  lemma {:induction false} BuildCapitals(spine: seq<char>, st: Session, segs: seq<string>)
    requires CursorOk(spine, st.spineIdx) && |spine| > 0 && NoSpace(spine)
    ensures Capitals(spine, st.spineIdx, |st.lineWest|, Build(spine, st, segs).lineWest)
  {
    if segs != [] {
      var init := segs[..|segs| - 1];
      BuildCapitals(spine, st, init);
      BuildCursor(spine, st, init);
      CapitalsStep(spine, st.spineIdx, |st.lineWest|, Build(spine, st, init), segs[|segs| - 1]);
    }
  }

  // ---------------------------------------------------------------------
  // Assembly

  /** One output line: the west fragment right-aligned to `wWidth`, then the
      east fragment. */
  function FullLine(wWidth: int, west: string, east: string): (r: string)
    requires |west| <= wWidth
    ensures |r| == wWidth + |east|
  {
    Spaces(wWidth - |west|) + west + east
  }

  /** `FormatFullLines`: one line per fragment pair, in order. */
  function FullLines(lw: seq<string>, le: seq<string>, wWidth: int): (r: seq<string>)
    requires |lw| == |le|
    requires forall i :: 0 <= i < |lw| ==> |lw[i]| <= wWidth
    ensures |r| == |lw|
    ensures forall i :: 0 <= i < |r| ==> |r[i]| == wWidth + |le[i]|
    decreases |lw|
  {
    if lw == [] then []
    else FullLines(lw[..|lw| - 1], le[..|le| - 1], wWidth) + [FullLine(wWidth, lw[|lw| - 1], le[|le| - 1])]
  }

  /** Line `i` of the assembled lines is built from fragment pair `i`. */
  lemma {:induction false} FullLinesAt(lw: seq<string>, le: seq<string>, wWidth: int, i: nat)
    requires |lw| == |le| && i < |lw|
    requires forall k :: 0 <= k < |lw| ==> |lw[k]| <= wWidth
    ensures FullLines(lw, le, wWidth)[i] == FullLine(wWidth, lw[i], le[i])
    decreases |lw|
  {
    if i < |lw| - 1 {
      FullLinesAt(lw[..|lw| - 1], le[..|le| - 1], wWidth, i);
    }
  }

  /** Assembling one more fragment pair appends one line. */
  lemma {:induction false} FullLinesSnoc(lw: seq<string>, le: seq<string>, wWidth: int, i: nat)
    requires |lw| == |le| && i < |lw|
    requires forall k :: 0 <= k < |lw| ==> |lw[k]| <= wWidth
    ensures FullLines(lw[..i + 1], le[..i + 1], wWidth)
      == FullLines(lw[..i], le[..i], wWidth) + [FullLine(wWidth, lw[i], le[i])]
  {
    assert lw[..i + 1][..i] == lw[..i] && le[..i + 1][..i] == le[..i];
  }

  /** Every assembled line is `wWidth - |west|` spaces, the west fragment and
      the east fragment, so the padded west part is exactly `wWidth` long. */
  lemma {:induction false} FullLineColumns(lw: seq<string>, le: seq<string>, wWidth: int, i: nat)
    requires |lw| == |le| && i < |lw|
    requires forall k :: 0 <= k < |lw| ==> |lw[k]| <= wWidth
    ensures var line := FullLines(lw, le, wWidth)[i];
      && line[..wWidth - |lw[i]|] == Spaces(wWidth - |lw[i]|)
      && line[wWidth - |lw[i]|..wWidth] == lw[i]
      && line[wWidth..] == le[i]
  {
    FullLinesAt(lw, le, wWidth, i);
    var line := FullLines(lw, le, wWidth)[i];
    assert line == Spaces(wWidth - |lw[i]|) + lw[i] + le[i];
  }

  /** The last character of the west fragment lands in column `wWidth - 1`
      of its line. */
  lemma {:induction false} FullLineCapital(wWidth: int, west: string, east: string)
    requires west != [] && |west| <= wWidth
    ensures FullLine(wWidth, west, east)[wWidth - 1] == west[|west| - 1]
  {
    var pad := Spaces(wWidth - |west|);
    assert FullLine(wWidth, west, east)[wWidth - 1] == (pad + west)[|pad| + |west| - 1];
  }

  /** The poem string: each line preceded by a newline. */
  function Poem(lines: seq<string>): (r: string)
    ensures lines == [] <==> r == ""
  {
    if lines == [] then ""
    else Poem(lines[..|lines| - 1]) + "\n" + lines[|lines| - 1]
  }

  /** `Poem` loses nothing: splitting it at newlines gives the empty piece
      before the first newline, then every line in order, when no line
      holds a newline of its own. */
  lemma {:induction false} PoemSplit(lines: seq<string>)
    requires forall i, j :: 0 <= i < |lines| && 0 <= j < |lines[i]| ==> lines[i][j] != '\n'
    ensures SplitOn(Poem(lines), {'\n'}) == [""] + lines
    decreases |lines|
  {
    if lines != [] {
      var m := |lines| - 1;
      PoemSplit(lines[..m]);
      SplitAppend(Poem(lines[..m]), '\n', lines[m], {'\n'});
      SplitNone(lines[m], {'\n'});
      assert Poem(lines) == Poem(lines[..m]) + ['\n'] + lines[m];
      assert lines == lines[..m] + [lines[m]];
    }
  }

  /** The spine runs down one column: in a poem built from a fresh session
      over any segments, line `i` carries `Upper(spine[i % |spine|])` at
      column `wWidth - 1`. */
  lemma {:induction false} PoemSpine(spine: seq<char>, segs: seq<string>)
    requires |spine| > 0 && NoSpace(spine)
    ensures SpineInColumn(spine, Build(spine, Fresh(), segs))
  {
    BuildWellFormed(spine, Fresh(), segs);
    BuildCapitals(spine, Fresh(), segs);
    SpineColumn(spine, Fresh(), Build(spine, Fresh(), segs));
  }

  /** The assembled lines of `r` carry the spine down column `wWidth - 1`:
      line `i` has `Upper(spine[i % |spine|])` there. */
  predicate SpineInColumn(spine: seq<char>, r: Session)
    requires |spine| > 0
  {
    && WellFormed(r)
    && var lines := FullLines(r.lineWest, r.lineEast, r.wWidth);
      forall i :: 0 <= i < |lines| ==>
        1 <= r.wWidth && lines[i][r.wWidth - 1] == Upper(spine[i % |spine|])
  }

  /** The step from fragments to lines in `PoemSpine`: when fragment `j`
      ends with the capital `j` moves from the first spine character put
      under the cursor, line `j` carries that capital in column
      `wWidth - 1`. */
  lemma {:induction false} SpineColumn(spine: seq<char>, st: Session, r: Session)
    requires |spine| > 0 && WellFormed(r) && st.spineIdx == 0 && |st.lineWest| == 0
    requires Capitals(spine, st.spineIdx, |st.lineWest|, r.lineWest)
    ensures SpineInColumn(spine, r)
  {
    forall i | 0 <= i < |r.lineWest|
      ensures 1 <= r.wWidth
      ensures FullLines(r.lineWest, r.lineEast, r.wWidth)[i][r.wWidth - 1] == Upper(spine[i % |spine|])
    {
      SpineLine(spine, r.lineWest, r.lineEast, r.wWidth, i);
    }
  }

  /** One line of `SpineColumn`. */
  lemma {:induction false} SpineLine(spine: seq<char>, lw: seq<string>, le: seq<string>, wWidth: int, i: nat)
    requires |spine| > 0 && |lw| == |le| && i < |lw|
    requires forall k :: 0 <= k < |lw| ==> |lw[k]| <= wWidth
    requires lw[i] != [] && lw[i][|lw[i]| - 1] == Upper(spine[Advance(0, i, |spine|)])
    ensures 1 <= wWidth && FullLines(lw, le, wWidth)[i][wWidth - 1] == Upper(spine[i % |spine|])
  {
    FullLinesAt(lw, le, wWidth, i);
    FullLineCapital(wWidth, lw[i], le[i]);
    AdvanceFromStart(i, |spine|);
  }

  /** No character of the spine occurs in the lowered segment. */
  predicate Untouched(spine: seq<char>, seg: string) {
    forall c :: c in spine ==> c !in LowerStr(seg)
  }

  /** A source in which no segment holds any spine character gives no
      fragments, hence the empty poem. */
  lemma {:induction false} NoMatchNoLines(spine: seq<char>, st: Session, segs: seq<string>)
    requires CursorOk(spine, st.spineIdx)
    requires forall j :: 0 <= j < |segs| ==> Untouched(spine, segs[j])
    ensures Build(spine, st, segs).lineWest == st.lineWest
    ensures Build(spine, st, segs).spineIdx == st.spineIdx
  {
    if segs != [] {
      var n := |segs| - 1;
      NoMatchNoLines(spine, st, segs[..n]);
      var p := Build(spine, st, segs[..n]);
      if |spine| > 0 {
        assert spine[p.spineIdx] !in LowerStr(segs[n]);
      }
      assert !Format(spine, p, segs[n]).0;
    }
  }

  /** The punctuation `BuildMeso` splits the source text on. */
  const Punct: set<char> := {',', '.', ';', ':'}

  // ---------------------------------------------------------------------
  // The engine object

  /** `Mesostic`: one poem's spine, cursor, fragments and result. */
  class Mesostic {
    var title: string
    var sourceTxt: string
    var spine: seq<char>
    var spineIdx: int
    var width: int
    var wWidth: int
    var mLines: seq<string>
    var mLinesIdx: int
    var lineWest: seq<string>
    var lineEast: seq<string>
    var emptyLine: seq<int>
    var poem: string

    /** The fields the build loop updates, as a value. */
    function Snapshot(): Session
      reads this`spineIdx, this`width, this`wWidth, this`mLinesIdx, this`lineWest, this`lineEast,
        this`emptyLine
    {
      Session(spineIdx, width, wWidth, mLinesIdx, lineWest, lineEast, emptyLine)
    }

    ghost predicate Valid()
      reads this`spine, this`spineIdx, this`width, this`wWidth, this`mLinesIdx, this`lineWest,
        this`lineEast, this`emptyLine
    {
      CursorOk(spine, spineIdx) && NoSpace(spine) && WellFormed(Snapshot()) && Tight(Snapshot())
    }

    /** `NewMesostic`, with the value of the spine environment variable
        passed in as `newspine`. */
    constructor (title: string, newspine: string)
      ensures Valid()
      ensures this.title == title && sourceTxt == "" && mLines == [] && poem == ""
      ensures Snapshot() == Fresh()
      ensures spine == Normalize(IntendedSpineSource(title, newspine))
    {
      this.title := title;
      sourceTxt := "";
      spine := [];
      spineIdx := 0;
      width := 0;
      wWidth := 0;
      mLines := [];
      mLinesIdx := 0;
      lineWest := [];
      lineEast := [];
      emptyLine := [];
      poem := "";
      new;
      assert Snapshot() == Fresh();
      var _ := ParseSpine(newspine);
    }

    /** `ParseSpine`: appends the normalized spine source to `spine`. The
        title is the source when `ss` is empty, as documented; the code as
        written discards it (`SpineSource`, `TitleSpineDropped`). */
    method ParseSpine(ss: string) returns (ok: bool)
      requires Valid()
      modifies this`spine
      ensures Valid()
      ensures spine == old(spine) + Normalize(IntendedSpineSource(title, ss))
      ensures ok
    {
      var source: string;
      if ss == "" {
        if |title| > MaxLen {
          source := title[..MaxLen];
        } else {
          source := title;
        }
      } else {
        if |ss| > MaxLen {
          source := ss[..MaxLen];
        } else {
          source := ss;
        }
      }
      assert source == IntendedSpineSource(title, ss);
      ghost var session := Snapshot();
      var i := 0;
      while i < |source|
        invariant 0 <= i <= |source|
        invariant spine == old(spine) + Normalize(source[..i])
      {
        NormalizeSnoc(source, i);
        if !IsSpace(source[i]) {
          spine := spine + [Lower(source[i])];
          assert spine == old(spine) + (Normalize(source[..i]) + [Lower(source[i])]);
        }
        i := i + 1;
      }
      assert source[..i] == source;
      assert Snapshot() == session;
      ok := true;
    }

    /** The tail of `FormatLine` after a hit: both sides trimmed and
        appended, and the two widths raised to cover them. */
    method RecordSides(west: string, east: string)
      requires Valid()
      modifies this`lineWest, this`lineEast, this`width, this`wWidth
      ensures Valid()
      ensures Snapshot() == Record(old(Snapshot()), west, east)
    {
      RecordTight(Snapshot(), west, east);
      var westline := TrimSpace(west);
      var eastline := TrimSpace(east);
      lineWest := lineWest + [westline];
      lineEast := lineEast + [eastline];
      var mline := westline + eastline;
      width := Wider(|mline|, width);
      wWidth := Wider(|westline|, wWidth);
    }

    /** `FormatLine`: scans one segment for the current spine character and
        records the trimmed fragments on a hit. */
    method FormatLine(line: string) returns (ok: bool)
      requires Valid()
      modifies this`lineWest, this`lineEast, this`width, this`wWidth
      ensures Valid()
      ensures ok == Format(spine, old(Snapshot()), line).0
      ensures Snapshot() == Format(spine, old(Snapshot()), line).1
    {
      if |spine| == 0 {
        return false;
      }
      var ssChar := spine[spineIdx];
      var nxChar := spine[Succ(spineIdx, |spine|)];
      var lowerline := LowerStr(line);
      var found, west, east := ScanLine(lowerline, ssChar, nxChar);
      if !found {
        return false;
      }
      FormatHit(spine, Snapshot(), line, west, east);
      RecordSides(west, east);
      ok := true;
    }

    /** `FormatFullLines`: appends one aligned line per fragment pair. */
    method FormatFullLines() returns (ok: bool)
      requires |lineWest| == |lineEast|
      requires forall k :: 0 <= k < |lineWest| ==> |lineWest[k]| <= wWidth
      modifies this`mLines
      ensures mLines == old(mLines) + FullLines(lineWest, lineEast, wWidth)
      ensures ok
    {
      var lw, le, w := lineWest, lineEast, wWidth;
      var i := 0;
      while i < |lw|
        invariant 0 <= i <= |lw| == |le|
        invariant forall k :: 0 <= k < |lw| ==> |lw[k]| <= w
        invariant mLines == old(mLines) + FullLines(lw[..i], le[..i], w)
      {
        FullLinesSnoc(lw, le, w, i);
        var east := le[i];
        var west := Spaces(w - |lw[i]|) + lw[i];
        assert west + east == FullLine(w, lw[i], le[i]);
        mLines := mLines + [west + east];
        i := i + 1;
      }
      assert lw[..i] == lw && le[..i] == le;
      ok := true;
    }

    /** One turn of the segment loop of `BuildMeso`: the segment goes
        through `FormatLine`; the cursor moves on a match, the segment index
        is recorded as empty on a miss, and the segment index moves on either
        way. */
    method NextSegment(line: string)
      requires Valid()
      modifies this`spineIdx, this`lineWest, this`lineEast, this`width, this`wWidth,
        this`mLinesIdx, this`emptyLine
      ensures Valid()
      ensures Snapshot() == Step(spine, old(Snapshot()), line)
    {
      ghost var before := Snapshot();
      var ok := FormatLine(line);
      if ok {
        StepHit(spine, before, line, Snapshot());
        spineIdx := Succ(spineIdx, |spine|);
      } else {
        StepMiss(spine, before, line);
        emptyLine := emptyLine + [mLinesIdx];
      }
      mLinesIdx := mLinesIdx + 1;
    }

    /** The segment loop of `BuildMeso`, over all segments in order. */
    method RunSegments(sourceLines: seq<string>)
      requires Valid()
      modifies this`spineIdx, this`lineWest, this`lineEast, this`width, this`wWidth,
        this`mLinesIdx, this`emptyLine
      ensures Valid()
      ensures Snapshot() == Build(spine, old(Snapshot()), sourceLines)
    {
      ghost var s0 := Snapshot();
      var i := 0;
      while i < |sourceLines|
        invariant 0 <= i <= |sourceLines|
        invariant Valid()
        invariant Snapshot() == Build(spine, s0, sourceLines[..i])
      {
        NextSegment(sourceLines[i]);
        BuildSnoc(spine, s0, sourceLines, i);
        i := i + 1;
      }
      assert sourceLines[..i] == sourceLines;
    }

    /** The tail of `BuildMeso`: `FormatFullLines`, then the lines joined
        into the poem, which is stored and returned. The session is left
        as it was. */
    method FinishPoem() returns (mesostic: string)
      requires Valid()
      modifies this`mLines, this`poem
      ensures Snapshot() == old(Snapshot())
      ensures mLines == old(mLines) + FullLines(lineWest, lineEast, wWidth)
      ensures mesostic == poem && poem == Poem(mLines)
    {
      var _ := FormatFullLines();
      mesostic := JoinLines(mLines);
      poem := mesostic;
    }

    /** `BuildMeso`: splits the source text on punctuation, runs every
        segment through `FormatLine`, assembles the lines and returns the
        poem. */
    method BuildMeso() returns (mesostic: string)
      requires Valid()
      modifies this`spineIdx, this`lineWest, this`lineEast, this`width, this`wWidth,
        this`mLinesIdx, this`emptyLine, this`mLines, this`poem
      ensures Valid()
      ensures Snapshot() == Build(spine, old(Snapshot()), SplitOn(old(sourceTxt), Punct))
      ensures mLines == old(mLines) + FullLines(lineWest, lineEast, wWidth)
      ensures mesostic == poem && poem == Poem(mLines)
    {
      var sourceLines := SplitOn(sourceTxt, Punct);
      RunSegments(sourceLines);
      mesostic := FinishPoem();
    }
  }

  /** The closing loop of `BuildMeso`: each line prefixed with a newline. */
  method JoinLines(lines: seq<string>) returns (mesostic: string)
    ensures mesostic == Poem(lines)
  {
    mesostic := "";
    var j := 0;
    while j < |lines|
      invariant 0 <= j <= |lines|
      invariant mesostic == Poem(lines[..j])
    {
      assert lines[..j + 1][..j] == lines[..j];
      mesostic := mesostic + "\n" + lines[j];
      j := j + 1;
    }
    assert lines[..j] == lines;
  }

  /** The two states of the `FormatLine` scanner. */
  datatype Mode = West | East
}
