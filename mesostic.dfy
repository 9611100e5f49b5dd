/** The legacy engine of mesostic.go. Its package globals (`padCount`,
    `fragCount`, `fragMents`, `ss`, `sca`, `ictus`, `nexus`) become the
    fields of one `Engine` object; the functions before the class say what
    its methods compute, and the lemmas say what that means for the poem. */
module MesoLegacy {
  import opened Text
  import opened Arith

  /** `LineFrag`: one processed line. `index` is the line's number in the
      source, `lineNum` the fragment's number, `wChars` the length of its
      west side and `data` the west and east sides together. */
  datatype LineFrag = LineFrag(index: int, lineNum: int, wChars: int, data: string)

  /** The globals `mesoLine` and `Ictus` update, as a value. A fragment is
      keyed by the value `fragCount` had when it was made. */
  datatype Legacy = Legacy(
    padCount: int,
    fragCount: int,
    fragMents: map<int, LineFrag>,
    ictus: int,
    nexus: int)

  // ---------------------------------------------------------------------
  // Spine rotation

  /** `Ictus(i)` on a spine string of length `n`: the new `ictus` and the
      new `nexus` when `ictus` was `c`. */
  function Rotate(c: int, i: int, n: int): (r: (int, int))
    ensures 0 <= c < n && 0 <= i && (c == n - 1 || c + i < n) ==> 0 <= r.0 < n
    ensures 0 <= r.0 < n ==> r.1 == (r.0 + 1) % n
  {
    var c1 := if c < n - 1 then c + i else if c == n - 1 then 0 else c;
    (c1, if c1 == n - 1 then 0 else c1 + 1)
  }

  /** `Ictus(1)` with the cursor inside the spine moves it one place along,
      wrapping from the last character to the first, and puts `nexus` one
      place after it. */
  lemma {:induction false} RotateOne(c: int, n: int)
    requires 0 <= c < n
    ensures Rotate(c, 1, n).0 == (c + 1) % n
    ensures Rotate(c, 1, n).1 == (Rotate(c, 1, n).0 + 1) % n
  {
    var c1 := Rotate(c, 1, n).0;
    if c < n - 1 {
      DivMod(c + 1, n, 0, c + 1);
    } else {
      DivMod(c + 1, n, 1, 0);
    }
    if c1 < n - 1 {
      DivMod(c1 + 1, n, 0, c1 + 1);
    } else {
      DivMod(c1 + 1, n, 1, 0);
    }
  }

  /** The cursor after `k` calls of `Ictus(1)` from `c`. */
  function Turns(c: int, k: nat, n: int): int {
    if k == 0 then c else Rotate(Turns(c, k - 1, n), 1, n).0
  }

  /** `k` rotations from `c` land on `(c + k) mod n`. */
  lemma {:induction false} TurnsMod(c: int, k: nat, n: int)
    requires 0 <= c < n
    ensures Turns(c, k, n) == (c + k) % n
  {
    if k > 0 {
      TurnsMod(c, k - 1, n);
      RotateOne(Turns(c, k - 1, n), n);
      ModSucc(c + k - 1, n);
    }
  }

  /** As many rotations as the spine has characters bring the cursor back
      to where it started. */
  lemma {:induction false} RotateCycle(c: int, n: int)
    requires 0 <= c < n
    ensures Turns(c, n, n) == c
  {
    TurnsMod(c, n, n);
    DivMod(c + n, n, 1, c);
  }

  /** On the spine "cra" the cursor starts on 'c' and three rotations read
      'r', 'a' and 'c' again. */
  lemma {:induction false} CraRotation()
    ensures var ss := "cra";
      && ss[Turns(0, 1, 3)] == 'r' && ss[Turns(0, 2, 3)] == 'a'
      && ss[Turns(0, 3, 3)] == 'c'
  {
    RotateCycle(0, 3);
  }

  // ---------------------------------------------------------------------
  // One line

  /** The west and east fragments `mesoLine` cuts from `s` when the current
      spine character is `sc` and the next one is `nc`. Without `sc` the
      whole line is the west side. Otherwise the west side runs up to the
      first `sc`, uppercased; the east side follows it up to the first `nc`
      and may hold `sc` again. */
  function LegacyCut(s: string, sc: char, nc: char): (r: (string, string))
    ensures sc !in s ==> r == (s, [])
    ensures sc in s ==>
      var k := |r.0| - 1;
      var e := |r.1|;
      && 0 <= k < |s| && s[k] == sc && sc !in s[..k]
      && r.0 == s[..k] + [Upper(sc)]
      && k + 1 + e <= |s| && r.1 == s[k + 1..k + 1 + e]
      && nc !in r.1
      && (k + 1 + e < |s| ==> s[k + 1 + e] == nc)
  {
    var k := IndexOf(s, sc);
    if k == |s| then (s, [])
    else (s[..k] + [Upper(sc)], s[k + 1..IndexFrom(s, nc, k + 1)])
  }

  /** Where the east side stops: at `i` when `nc` does not occur between
      the spine character at `k` and `i`, and `i` is the end of the line or
      holds `nc`. */
  lemma {:induction false} LegacyCutAt(s: string, sc: char, nc: char, k: nat, i: nat)
    requires k == IndexOf(s, sc) < i <= |s|
    requires nc !in s[k + 1..i] && (i == |s| || s[i] == nc)
    ensures LegacyCut(s, sc, nc) == (s[..k] + [Upper(sc)], s[k + 1..i])
  {
    forall j | k + 1 <= j < i
      ensures s[j] != nc
    {
      assert s[j] == s[k + 1..i][j - k - 1];
    }
    assert IndexFrom(s, nc, k + 1) == i;
  }

  /** A repeat of the current spine character stays on the east side: an
      `sc` after the first one, with no `nc` before it, is kept, lowercase,
      in the east side. */
  lemma {:induction false} EastKeepsSpineChar(s: string, sc: char, nc: char, j: nat)
    requires IndexOf(s, sc) < j < |s| && s[j] == sc
    requires nc !in s[IndexOf(s, sc) + 1..j + 1]
    ensures sc in LegacyCut(s, sc, nc).1
  {
    var k := IndexOf(s, sc);
    var e := IndexFrom(s, nc, k + 1);
    assert LegacyCut(s, sc, nc).1 == s[k + 1..e];
    assert s[k + 1..e][j - k - 1] == sc;
  }

  /** The globals hold together: every fragment sits under the key
      `fragCount` had when it was made, carries the next number as its
      `lineNum`, and fits in `padCount`. */
  predicate Sound(st: Legacy) {
    && 0 <= st.fragCount
    && forall k :: k in st.fragMents ==>
         && 0 <= k < st.fragCount && st.fragMents[k].lineNum == k + 1
         && 0 <= st.fragMents[k].wChars <= st.padCount
  }

  /** Both cursors index a spine string of length `n`. */
  predicate Cursors(st: Legacy, n: int) {
    0 <= st.ictus < n && 0 <= st.nexus < n
  }

  /** The fragment `mesoLine` makes of line `s` cut around `sc` with `nc`
      next: index `c`, number `num`, the west side's length and both sides. */
  function NewFrag(s: string, sc: char, nc: char, c: int, num: int): LineFrag {
    var cut := LegacyCut(s, sc, nc);
    LineFrag(c, num, |cut.0|, cut.0 + cut.1)
  }

  /** The fragment is the line itself when `sc` is missing. Otherwise its
      west side ends at the first `sc`, capitalised, and the rest of it is
      the line as it stands, up to the next `nc`. */
  lemma {:induction false} NewFragCut(s: string, sc: char, nc: char, c: int, num: int)
    ensures var r := NewFrag(s, sc, nc, c, num);
      && r.index == c && r.lineNum == num
      && (sc !in s ==> r.wChars == |s| && r.data == s)
      && (sc in s ==>
        && 1 <= r.wChars <= |r.data| <= |s|
        && s[r.wChars - 1] == sc && sc !in s[..r.wChars - 1]
        && r.data == s[..r.wChars - 1] + [Upper(sc)] + s[r.wChars..|r.data|]
        && nc !in r.data[r.wChars..])
  {
  }

  /** `mesoLine(s, c)` on the globals `st`, with the spine characters `sca`
      and a spine string of length `n`: one fragment is always recorded,
      `padCount` keeps the longest west side and the cursor rotates. */
  function Record(sca: seq<char>, n: int, st: Legacy, s: string, c: int): (r: Legacy)
    requires 0 <= st.ictus < |sca| && 0 <= st.nexus < |sca|
    ensures r.fragCount == st.fragCount + 1
    ensures var f := NewFrag(s, sca[st.ictus], sca[st.nexus], c, st.fragCount + 1);
      && r.fragMents == st.fragMents[st.fragCount := f]
      && st.padCount <= r.padCount && f.wChars <= r.padCount
      && (r.padCount == st.padCount || r.padCount == f.wChars)
    ensures (r.ictus, r.nexus) == Rotate(st.ictus, 1, n)
    ensures 0 <= st.ictus < n ==> Cursors(r, n)
  {
    var f := NewFrag(s, sca[st.ictus], sca[st.nexus], c, st.fragCount + 1);
    var rot := Rotate(st.ictus, 1, n);
    Legacy(
      if f.wChars > st.padCount then f.wChars else st.padCount,
      st.fragCount + 1,
      st.fragMents[st.fragCount := f],
      rot.0, rot.1)
  }

  /** The `mesoLine` calls of `mesoMain`: line `j` of `lines`, which the
      caller has lowercased, with index `j + 1`. */
  function Lines(sca: seq<char>, n: int, st: Legacy, lines: seq<string>): (r: Legacy)
    requires n <= |sca| && Cursors(st, n)
    ensures Cursors(r, n)
    ensures r.fragCount == st.fragCount + |lines|
    decreases |lines|
  {
    if lines == [] then st
    else
      var p := Lines(sca, n, st, lines[..|lines| - 1]);
      Record(sca, n, p, lines[|lines| - 1], |lines|)
  }

  /** `mesoLine` keeps the globals together: the new fragment goes under
      a fresh key, and `padCount` still covers every west side. */
  lemma {:induction false} RecordSound(sca: seq<char>, n: int, st: Legacy, s: string, c: int)
    requires 0 <= st.ictus < |sca| && 0 <= st.nexus < |sca| && Sound(st)
    ensures Sound(Record(sca, n, st, s, c))
  {
  }

  /** The calls of `mesoMain` keep the globals together. */
  lemma {:induction false} LinesSound(sca: seq<char>, n: int, st: Legacy, lines: seq<string>)
    requires n <= |sca| && Cursors(st, n) && Sound(st)
    ensures Sound(Lines(sca, n, st, lines))
    decreases |lines|
  {
    if lines != [] {
      var m := |lines| - 1;
      LinesSound(sca, n, st, lines[..m]);
      RecordSound(sca, n, Lines(sca, n, st, lines[..m]), lines[m], |lines|);
    }
  }

  /** `Lines` on one more line is one more `Record`. */
  lemma {:induction false} LinesSnoc(sca: seq<char>, n: int, st: Legacy, lines: seq<string>, i: nat)
    requires n <= |sca| && Cursors(st, n) && i < |lines|
    ensures Lines(sca, n, st, lines[..i + 1])
      == Record(sca, n, Lines(sca, n, st, lines[..i]), lines[i], i + 1)
  {
    assert lines[..i + 1][..i] == lines[..i];
  }

  // ---------------------------------------------------------------------
  // Fragments in order

  /** The fragments of `m` with keys below `n`, in key order. */
  function ByKey(m: map<int, LineFrag>, n: nat): (r: seq<LineFrag>)
    ensures |r| <= n
  {
    if n == 0 then []
    else ByKey(m, n - 1) + (if n - 1 in m then [m[n - 1]] else [])
  }

  /** `ByKey` only looks at keys below `n`. */
  lemma {:induction false} ByKeyFrame(m1: map<int, LineFrag>, m2: map<int, LineFrag>, n: nat)
    requires forall k :: 0 <= k < n ==> (k in m1 <==> k in m2)
    requires forall k :: 0 <= k < n && k in m1 ==> m1[k] == m2[k]
    ensures ByKey(m1, n) == ByKey(m2, n)
  {
    if n > 0 {
      ByKeyFrame(m1, m2, n - 1);
    }
  }

  /** A map with no key below `n` has no fragments below `n`. */
  lemma {:induction false} ByKeyNone(m: map<int, LineFrag>, n: nat)
    requires forall k :: k in m ==> k < 0 || n <= k
    ensures ByKey(m, n) == []
  {
    if n > 0 {
      ByKeyNone(m, n - 1);
    }
  }

  /** Taking one fragment out of the map takes exactly it out of `ByKey`. */
  lemma {:induction false} ByKeyRemove(m: map<int, LineFrag>, n: nat, k: int)
    requires k in m && 0 <= k < n
    ensures multiset(ByKey(m, n)) == multiset(ByKey(m - {k}, n)) + multiset{m[k]}
  {
    var rest := m - {k};
    if n - 1 == k {
      ByKeyFrame(m, rest, n - 1);
      assert ByKey(m, n) == ByKey(rest, n) + [m[k]];
    } else {
      ByKeyRemove(m, n - 1, k);
      var t := if n - 1 in m then [m[n - 1]] else [];
      assert ByKey(m, n) == ByKey(m, n - 1) + t;
      assert ByKey(rest, n) == ByKey(rest, n - 1) + t;
      AppendBoth(ByKey(m, n - 1), ByKey(rest, n - 1), t, m[k]);
    }
  }

  /** Appending the same fragments to both sides keeps one side one
      fragment larger than the other. */
  lemma {:induction false} AppendBoth(a: seq<LineFrag>, b: seq<LineFrag>, t: seq<LineFrag>, x: LineFrag)
    requires multiset(a) == multiset(b) + multiset{x}
    ensures multiset(a + t) == multiset(b + t) + multiset{x}
  {
  }

  /** When every fragment is numbered one past its key, `ByKey` lists them
      with strictly increasing `lineNum`, all at most `n`. */
  lemma {:induction false} ByKeyIncreasing(m: map<int, LineFrag>, n: nat)
    requires forall k :: k in m ==> m[k].lineNum == k + 1
    ensures Increasing(ByKey(m, n), n)
  {
    if n > 0 {
      ByKeyIncreasing(m, n - 1);
      var p := ByKey(m, n - 1);
      var r := ByKey(m, n);
      assert r[..|p|] == p;
      assert |r| > |p| ==> r[|p|].lineNum == n;
      forall i | 0 <= i < |r|
        ensures r[i].lineNum <= n
      {
        if i < |p| {
          assert r[i] == p[i];
        }
      }
      forall i, j | 0 <= i < j < |r|
        ensures r[i].lineNum < r[j].lineNum
      {
        assert r[i] == p[i];
        if j < |p| {
          assert r[j] == p[j];
        }
      }
    }
  }

  /** Every fragment `ByKey` lists fits in `pad` when every fragment of the
      map does. */
  lemma {:induction false} ByKeyFits(m: map<int, LineFrag>, n: nat, pad: int)
    requires forall k :: k in m ==> 0 <= m[k].wChars <= pad
    ensures Fits(ByKey(m, n), pad)
  {
    if n > 0 {
      ByKeyFits(m, n - 1, pad);
      var p := ByKey(m, n - 1);
      var r := ByKey(m, n);
      forall i | 0 <= i < |r|
        ensures 0 <= r[i].wChars <= pad
      {
        if i < |p| {
          assert r[i] == p[i];
        }
      }
    }
  }

  /** `lineNum` rises strictly along `ls` and stays at most `n`. */
  predicate Increasing(ls: seq<LineFrag>, n: int) {
    && (forall i :: 0 <= i < |ls| ==> ls[i].lineNum <= n)
    && (forall i, j :: 0 <= i < j < |ls| ==> ls[i].lineNum < ls[j].lineNum)
  }

  /** `LineFrags.Less`: fragments sort on `lineNum`. */
  predicate Less(ls: seq<LineFrag>, i: int, j: int)
    requires 0 <= i < |ls| && 0 <= j < |ls|
  {
    ls[i].lineNum < ls[j].lineNum
  }

  /** `Less` is a strict order, total on fragments with distinct numbers,
      and a sequence is `Sorted` exactly when no fragment is `Less` than one
      before it, the order `sort.Sort` establishes. */
  lemma {:induction false} LessOrder(ls: seq<LineFrag>)
    ensures forall i :: 0 <= i < |ls| ==> !Less(ls, i, i)
    ensures forall i, j, k :: 0 <= i < |ls| && 0 <= j < |ls| && 0 <= k < |ls| ==>
      (Less(ls, i, j) && Less(ls, j, k) ==> Less(ls, i, k))
    ensures forall i, j :: 0 <= i < |ls| && 0 <= j < |ls| ==>
      (ls[i].lineNum != ls[j].lineNum ==> Less(ls, i, j) || Less(ls, j, i))
    ensures Sorted(ls) <==> forall i, j :: 0 <= i < j < |ls| ==> !Less(ls, j, i)
  {
  }

  /** No fragment is `Less` than one before it: `lineNum` never falls. */
  predicate Sorted(ls: seq<LineFrag>) {
    forall i, j :: 0 <= i < j < |ls| ==> ls[i].lineNum <= ls[j].lineNum
  }

  /** No two fragments share a `lineNum`. */
  predicate Distinct(ls: seq<LineFrag>) {
    forall i, j :: 0 <= i < j < |ls| ==> ls[i].lineNum != ls[j].lineNum
  }

  /** Two sorted arrangements of the same fragments, with distinct numbers,
      start with the same fragment. */
  lemma {:induction false} SortedHead(a: seq<LineFrag>, b: seq<LineFrag>)
    requires Sorted(a) && Sorted(b) && Distinct(a)
    requires multiset(a) == multiset(b) && a != []
    ensures b != [] && a[0] == b[0]
  {
    assert a[0] in multiset(b);
    var p :| 0 <= p < |b| && b[p] == a[0];
    assert b[0] in multiset(a);
    var q :| 0 <= q < |a| && a[q] == b[0];
    assert a[q].lineNum == a[0].lineNum;
  }

  /** Removing the same first fragment from both sides keeps the two
      arrangements' fragments equal. */
  lemma {:induction false} SameTails(a: seq<LineFrag>, b: seq<LineFrag>)
    requires multiset(a) == multiset(b) && a != [] && b != [] && a[0] == b[0]
    ensures multiset(a[1..]) == multiset(b[1..])
  {
    assert a == [a[0]] + a[1..];
    assert b == [b[0]] + b[1..];
    assert multiset(a[1..]) == multiset(a) - multiset{a[0]};
    assert multiset(b[1..]) == multiset(b) - multiset{b[0]};
  }

  /** Fragments with distinct numbers have only one sorted order: two sorted
      arrangements of the same fragments are the same sequence. */
  lemma {:induction false} SortedUnique(a: seq<LineFrag>, b: seq<LineFrag>)
    requires Sorted(a) && Sorted(b) && Distinct(a)
    requires multiset(a) == multiset(b)
    ensures a == b
    decreases |a|
  {
    assert |a| == |multiset(a)| == |multiset(b)| == |b|;
    if a != [] {
      SortedHead(a, b);
      SameTails(a, b);
      SortedUnique(a[1..], b[1..]);
      assert a == [a[0]] + a[1..];
      assert b == [b[0]] + b[1..];
    }
  }

  /** `ByKey` of the globals after `mesoLine(s, c)` is `ByKey` before it
      with the new fragment, numbered `fragCount + 1`, at the end. */
  lemma {:induction false} ByKeyRecord(sca: seq<char>, n: int, st: Legacy, s: string, c: int)
    requires 0 <= st.ictus < |sca| && 0 <= st.nexus < |sca| && Sound(st)
    ensures var r := Record(sca, n, st, s, c);
      var f := r.fragMents[st.fragCount];
      && ByKey(r.fragMents, r.fragCount) == ByKey(st.fragMents, st.fragCount) + [f]
      && f.index == c && f.lineNum == st.fragCount + 1
  {
    var r := Record(sca, n, st, s, c);
    ByKeyFrame(r.fragMents, st.fragMents, st.fragCount);
  }

  /** `after` is `before` followed by `count` fragments whose `index` runs
      from 1 and whose `lineNum` runs from `c0 + 1`. */
  predicate InOrder(before: seq<LineFrag>, after: seq<LineFrag>, c0: int, count: nat) {
    && |after| == |before| + count && after[..|before|] == before
    && forall i :: |before| <= i < |after| ==>
         after[i].index == i - |before| + 1 && after[i].lineNum == c0 + (i - |before|) + 1
  }

  /** `after` is `mid` with one more fragment, of index `idx` and number
      `num`, at the end. */
  predicate Appended(mid: seq<LineFrag>, after: seq<LineFrag>, idx: int, num: int) {
    && |after| == |mid| + 1 && after[..|mid|] == mid
    && after[|mid|].index == idx && after[|mid|].lineNum == num
  }

  /** One more fragment, numbered next, keeps `InOrder`. */
  lemma {:induction false} InOrderSnoc(before: seq<LineFrag>, mid: seq<LineFrag>, after: seq<LineFrag>, c0: int, count: nat)
    requires InOrder(before, mid, c0, count)
    requires Appended(mid, after, count + 1, c0 + count + 1)
    ensures InOrder(before, after, c0, count + 1)
  {
    assert after[..|before|] == mid[..|before|];
    forall i | |before| <= i < |after|
      ensures after[i].index == i - |before| + 1
      ensures after[i].lineNum == c0 + (i - |before|) + 1
    {
      if i < |mid| {
        assert after[i] == after[..|mid|][i];
      }
    }
  }

  /** One more source line adds one fragment at the end of `ByKey`, with
      the line's number as `index` and the next number as `lineNum`. */
  lemma {:induction false} LinesStep(sca: seq<char>, n: int, st: Legacy, lines: seq<string>)
    requires n <= |sca| && Cursors(st, n) && Sound(st) && lines != []
    ensures Appended(
      ByKey(Lines(sca, n, st, lines[..|lines| - 1]).fragMents, st.fragCount + |lines| - 1),
      ByKey(Lines(sca, n, st, lines).fragMents, st.fragCount + |lines|),
      |lines|, st.fragCount + |lines|)
  {
    var m := |lines| - 1;
    var p := Lines(sca, n, st, lines[..m]);
    var r := Record(sca, n, p, lines[m], |lines|);
    assert Lines(sca, n, st, lines) == r;
    LinesSound(sca, n, st, lines[..m]);
    ByKeyRecord(sca, n, p, lines[m], |lines|);
    var mid := ByKey(p.fragMents, p.fragCount);
    assert (mid + [r.fragMents[p.fragCount]])[..|mid|] == mid;
  }

  /** Sorting by `lineNum` restores call order: after `mesoMain`'s calls,
      the fragments in key order are the earlier ones followed by one per
      source line, in line order, with `index` counting lines from 1. */
  lemma {:induction false} LinesOrder(sca: seq<char>, n: int, st: Legacy, lines: seq<string>)
    requires n <= |sca| && Cursors(st, n) && Sound(st)
    ensures InOrder(ByKey(st.fragMents, st.fragCount),
      ByKey(Lines(sca, n, st, lines).fragMents, st.fragCount + |lines|), st.fragCount, |lines|)
    decreases |lines|
  {
    var before := ByKey(st.fragMents, st.fragCount);
    if lines == [] {
      assert Lines(sca, n, st, lines) == st;
      assert before[..|before|] == before;
    } else {
      var m := |lines| - 1;
      var mid := ByKey(Lines(sca, n, st, lines[..m]).fragMents, st.fragCount + m);
      var after := ByKey(Lines(sca, n, st, lines).fragMents, st.fragCount + |lines|);
      LinesOrder(sca, n, st, lines[..m]);
      LinesStep(sca, n, st, lines);
      InOrderSnoc(before, mid, after, st.fragCount, m);
    }
  }

  /** Each line rotates the cursor once: after the calls of `mesoMain` the
      cursor has moved once per line, and `nexus` is the place after it. */
  lemma {:induction false} LinesCursor(sca: seq<char>, n: int, st: Legacy, lines: seq<string>)
    requires n <= |sca| && Cursors(st, n) && st.nexus == (st.ictus + 1) % n
    ensures var r := Lines(sca, n, st, lines);
      r.ictus == (st.ictus + |lines|) % n && r.nexus == (r.ictus + 1) % n
    decreases |lines|
  {
    if lines == [] {
      DivMod(st.ictus, n, 0, st.ictus);
    } else {
      var m := |lines| - 1;
      var p := Lines(sca, n, st, lines[..m]);
      LinesCursor(sca, n, st, lines[..m]);
      RotateOne(p.ictus, n);
      ModSucc(st.ictus + m, n);
    }
  }

  /** The fragment line `j` of a run from `st` makes: index `j + 1`, number
      `fragCount + j + 1`, the line cut around spine position
      `(ictus + j) % n` with the position after it as next. */
  function FragOf(sca: seq<char>, n: int, st: Legacy, lines: seq<string>, j: nat): LineFrag
    requires 0 < n <= |sca| && j < |lines|
  {
    var c := (st.ictus + j) % n;
    NewFrag(lines[j], sca[c], sca[(c + 1) % n], j + 1, st.fragCount + j + 1)
  }

  /** Source line `j` becomes the fragment `FragOf` describes, under key
      `fragCount + j`. */
  lemma {:induction false} LinesData(sca: seq<char>, n: int, st: Legacy, lines: seq<string>, j: nat)
    requires n <= |sca| && Cursors(st, n) && st.nexus == (st.ictus + 1) % n && j < |lines|
    ensures var r := Lines(sca, n, st, lines);
      st.fragCount + j in r.fragMents && r.fragMents[st.fragCount + j] == FragOf(sca, n, st, lines, j)
    decreases |lines|
  {
    var m := |lines| - 1;
    if j < m {
      LinesData(sca, n, st, lines[..m], j);
      assert lines[..m][j] == lines[j];
      LinesKeep(sca, n, st, lines, st.fragCount + j);
    } else {
      LinesDataLast(sca, n, st, lines);
    }
  }

  /** The last line of a run becomes the fragment `FragOf` describes. */
  lemma {:induction false} LinesDataLast(sca: seq<char>, n: int, st: Legacy, lines: seq<string>)
    requires n <= |sca| && Cursors(st, n) && st.nexus == (st.ictus + 1) % n && lines != []
    ensures var r := Lines(sca, n, st, lines);
      st.fragCount + |lines| - 1 in r.fragMents
      && r.fragMents[st.fragCount + |lines| - 1] == FragOf(sca, n, st, lines, |lines| - 1)
  {
    var m := |lines| - 1;
    var p := Lines(sca, n, st, lines[..m]);
    assert Lines(sca, n, st, lines) == Record(sca, n, p, lines[m], |lines|);
    LinesCursor(sca, n, st, lines[..m]);
    RecordFragOf(sca, n, st, p, lines);
  }

  /** The `mesoLine` call for the last line, made with the cursor where
      `LinesCursor` puts it, stores the fragment `FragOf` describes. */
  lemma {:induction false} RecordFragOf(sca: seq<char>, n: int, st: Legacy, p: Legacy, lines: seq<string>)
    requires 0 < n <= |sca| && lines != []
    requires p.ictus == (st.ictus + |lines| - 1) % n && p.nexus == (p.ictus + 1) % n
    requires p.fragCount == st.fragCount + |lines| - 1
    ensures var r := Record(sca, n, p, lines[|lines| - 1], |lines|);
      p.fragCount in r.fragMents && r.fragMents[p.fragCount] == FragOf(sca, n, st, lines, |lines| - 1)
  {
    var m := |lines| - 1;
    RecordAt(sca, n, p, lines[m], p.ictus, p.fragCount, |lines|);
  }

  /** The last line of a run leaves the fragments of the earlier lines as
      they were. */
  lemma {:induction false} LinesKeep(sca: seq<char>, n: int, st: Legacy, lines: seq<string>, key: int)
    requires n <= |sca| && Cursors(st, n) && lines != []
    requires var p := Lines(sca, n, st, lines[..|lines| - 1]);
      key in p.fragMents && key != p.fragCount
    ensures var p := Lines(sca, n, st, lines[..|lines| - 1]);
      var r := Lines(sca, n, st, lines);
      key in r.fragMents && r.fragMents[key] == p.fragMents[key]
  {
    var m := |lines| - 1;
    var p := Lines(sca, n, st, lines[..m]);
    assert Lines(sca, n, st, lines) == Record(sca, n, p, lines[m], |lines|);
    RecordKeeps(sca, n, p, lines[m], |lines|, key);
  }

  /** `mesoLine` with the cursor at `ic` and `fragCount` at `k` stores the
      fragment it makes, cut around `ic`, under `k`. */
  lemma {:induction false} RecordAt(sca: seq<char>, n: int, st: Legacy, s: string, ic: int, k: int, c: int)
    requires 0 <= ic < n <= |sca|
    requires st.ictus == ic && st.nexus == (ic + 1) % n && st.fragCount == k
    ensures Record(sca, n, st, s, c).fragMents[k] == NewFrag(s, sca[ic], sca[(ic + 1) % n], c, k + 1)
  {
  }

  /** `mesoLine` leaves every fragment already stored under another key as
      it was. */
  lemma {:induction false} RecordKeeps(sca: seq<char>, n: int, st: Legacy, s: string, c: int, key: int)
    requires 0 <= st.ictus < |sca| && 0 <= st.nexus < |sca|
    requires key in st.fragMents && key != st.fragCount
    ensures var r := Record(sca, n, st, s, c);
      key in r.fragMents && r.fragMents[key] == st.fragMents[key]
  {
  }

  /** A map holding every key below `n` lists, in key order, the fragment
      under key `k` at position `k`. */
  lemma {:induction false} ByKeyFull(m: map<int, LineFrag>, n: nat)
    requires forall k :: 0 <= k < n ==> k in m
    ensures |ByKey(m, n)| == n
    ensures forall k :: 0 <= k < n ==> ByKey(m, n)[k] == m[k]
  {
    if n > 0 {
      ByKeyFull(m, n - 1);
      assert ByKey(m, n) == ByKey(m, n - 1) + [m[n - 1]];
    }
  }

  /** From fresh globals, the fragments `mesoMain` renders, in key order, are
      one per source line, in line order: fragment `j` is line `j` cut
      around spine position `(ictus + j) % n`. */
  lemma {:induction false} FreshPoemLines(sca: seq<char>, n: int, st: Legacy, lines: seq<string>)
    requires n <= |sca| && Cursors(st, n) && st.nexus == (st.ictus + 1) % n
    requires st.fragCount == 0
    ensures var r := Lines(sca, n, st, lines);
      var ls := ByKey(r.fragMents, r.fragCount);
      && |ls| == |lines|
      && forall j :: 0 <= j < |lines| ==> ls[j] == FragOf(sca, n, st, lines, j)
  {
    var r := Lines(sca, n, st, lines);
    forall k | 0 <= k < |lines|
      ensures k in r.fragMents
    {
      LinesData(sca, n, st, lines, k);
    }
    ByKeyFull(r.fragMents, |lines|);
    forall j | 0 <= j < |lines|
      ensures ByKey(r.fragMents, r.fragCount)[j] == FragOf(sca, n, st, lines, j)
    {
      LinesData(sca, n, st, lines, j);
    }
  }

  // ---------------------------------------------------------------------
  // Padding

  /** A fragment moved right by `padCount - WChars` spaces. */
  function PadText(f: LineFrag, pad: int): string
    requires 0 <= f.wChars <= pad
  {
    Spaces(pad - f.wChars) + f.data
  }

  /** One output line: `padCount - WChars` spaces, the fragment, a newline.
      Its west side ends at column `pad`, and it holds no other newline
      when the fragment holds none. */
  function PadLine(f: LineFrag, pad: int): (r: string)
    requires 0 <= f.wChars <= pad
    ensures |r| == pad + (|f.data| - f.wChars) + 1
    ensures r[|r| - 1] == '\n'
    ensures OneLine(f.data) ==> OneLine(r[..|r| - 1])
  {
    PadText(f, pad) + "\n"
  }

  /** `s` holds no newline. */
  predicate OneLine(s: string) {
    forall i :: 0 <= i < |s| ==> s[i] != '\n'
  }

  /** The padding puts the last west-side character of every fragment, its
      capital when it has one, in column `pad - 1`, with only spaces before
      the fragment. */
  lemma {:induction false} PadLineColumn(f: LineFrag, pad: int)
    requires 1 <= f.wChars <= pad && f.wChars <= |f.data|
    ensures var r := PadLine(f, pad);
      && pad <= |r| && r[pad - 1] == f.data[f.wChars - 1]
      && (forall i :: 0 <= i < pad - f.wChars ==> r[i] == ' ')
      && r[pad - f.wChars..|r| - 1] == f.data && r[|r| - 1] == '\n'
  {
  }

  /** Every fragment's west side fits in `pad`, so no pad count is
      negative. */
  predicate Fits(ls: seq<LineFrag>, pad: int) {
    forall i :: 0 <= i < |ls| ==> 0 <= ls[i].wChars <= pad
  }

  /** The poem `mesoMain` sends: the fragments' padded lines in order. */
  function Render(ls: seq<LineFrag>, pad: int): (r: string)
    requires Fits(ls, pad)
    ensures ls == [] <==> r == []
    ensures ls != [] ==> r[|r| - 1] == '\n'
  {
    if ls == [] then []
    else Render(ls[..|ls| - 1], pad) + PadLine(ls[|ls| - 1], pad)
  }

  /** The padded texts of `ls`, in order. */
  function PadTexts(ls: seq<LineFrag>, pad: int): seq<string>
    requires Fits(ls, pad)
  {
    if ls == [] then []
    else PadTexts(ls[..|ls| - 1], pad) + [PadText(ls[|ls| - 1], pad)]
  }

  /** Padding adds no newline. */
  lemma {:induction false} PadTextOneLine(f: LineFrag, pad: int)
    requires 0 <= f.wChars <= pad && OneLine(f.data)
    ensures OneLine(PadText(f, pad))
  {
    var r := PadText(f, pad);
    forall i | 0 <= i < |r|
      ensures r[i] != '\n'
    {
      if i >= pad - f.wChars {
        assert r[i] == f.data[i - (pad - f.wChars)];
      }
    }
  }

  /** `Render` loses nothing: splitting the poem, followed by a text `t`,
      at newlines gives every fragment's padded text in order and then
      `t`. With `t` empty, the poem's lines are the padded fragments and
      the empty piece after the last newline. */
  lemma {:induction false} RenderSplit(ls: seq<LineFrag>, pad: int, t: string)
    requires Fits(ls, pad) && OneLine(t)
    requires forall i :: 0 <= i < |ls| ==> OneLine(ls[i].data)
    ensures SplitOn(Render(ls, pad) + t, {'\n'}) == PadTexts(ls, pad) + [t]
    decreases |ls|
  {
    if ls == [] {
      SplitNone(t, {'\n'});
      assert Render(ls, pad) + t == t;
    } else {
      var m := |ls| - 1;
      var init := Render(ls[..m], pad);
      var last := PadText(ls[m], pad);
      PadTextOneLine(ls[m], pad);
      RenderSplit(ls[..m], pad, last);
      RenderSnoc(ls, pad);
      assert Render(ls, pad) + t == (init + last) + ['\n'] + t;
      assert PadTexts(ls, pad) == PadTexts(ls[..m], pad) + [last];
      SplitLast(init + last, t, PadTexts(ls[..m], pad) + [last]);
    }
  }

  /** One more fragment adds its padded text and a newline. */
  lemma {:induction false} RenderSnoc(ls: seq<LineFrag>, pad: int)
    requires Fits(ls, pad) && ls != []
    ensures Render(ls, pad) == Render(ls[..|ls| - 1], pad) + PadText(ls[|ls| - 1], pad) + ['\n']
  {
  }

  /** A newline and a text `t` after a string add `t` as one more piece. */
  lemma {:induction false} SplitLast(a: string, t: string, pieces: seq<string>)
    requires OneLine(t) && SplitOn(a, {'\n'}) == pieces
    ensures SplitOn(a + ['\n'] + t, {'\n'}) == pieces + [t]
  {
    SplitAppend(a, '\n', t, {'\n'});
    SplitNone(t, {'\n'});
  }

  /** A map with a key has a key to pick. */
  lemma {:induction false} HasKey(m: map<int, LineFrag>)
    requires m.Keys != {}
    ensures exists k :: k in m
  {
    if forall k :: k !in m {
      assert false;
    }
  }

  /** Moving the fragment under `k` from the map to the end of `lf` keeps
      the fragments of `all` accounted for, each once. */
  lemma {:induction false} DrainStep(lf: seq<LineFrag>, m: map<int, LineFrag>, all: map<int, LineFrag>, n: nat, k: int)
    requires k in m && 0 <= k < n
    requires multiset(lf) + multiset(ByKey(m, n)) == multiset(ByKey(all, n))
    ensures multiset(lf + [m[k]]) + multiset(ByKey(m - {k}, n)) == multiset(ByKey(all, n))
  {
    ByKeyRemove(m, n, k);
  }

  /** The padding loop of `mesoMain`, with `strings.Join` of the pieces
      written as concatenation. */
  method PadFrags(ls: seq<LineFrag>, padCount: int) returns (mesostic: string)
    requires Fits(ls, padCount)
    ensures mesostic == Render(ls, padCount)
  {
    mesostic := [];
    var i := 0;
    while i < |ls|
      invariant 0 <= i <= |ls|
      invariant mesostic == Render(ls[..i], padCount)
    {
      var padMe := padCount - ls[i].wChars;
      var spaces := Spaces(padMe);
      mesostic := mesostic + spaces + ls[i].data + "\n";
      assert ls[..i + 1][..i] == ls[..i];
      i := i + 1;
    }
    assert ls[..i] == ls;
  }

  // ---------------------------------------------------------------------
  // Sorting

  /** `LineFrags.Len`. */
  function Len(ls: array<LineFrag>): (r: nat)
    ensures r == ls.Length
  {
    ls.Length
  }

  /** `LineFrags.Swap`: the two fragments trade places. */
  method Swap(ls: array<LineFrag>, i: int, j: int)
    requires 0 <= i < ls.Length && 0 <= j < ls.Length
    modifies ls
    ensures ls[..] == old(ls[..])[i := old(ls[j])][j := old(ls[i])]
    ensures multiset(ls[..]) == multiset(old(ls[..]))
  {
    ls[i], ls[j] := ls[j], ls[i];
  }

  /** `sort.Sort(linefragments)`: the fragments end up sorted on `lineNum`
      and are the same fragments as before. */
  method SortFrags(ls: array<LineFrag>)
    modifies ls
    ensures Sorted(ls[..])
    ensures multiset(ls[..]) == multiset(old(ls[..]))
  {
    var i := 0;
    while i < Len(ls)
      invariant 0 <= i <= ls.Length
      invariant Sorted(ls[..i])
      invariant multiset(ls[..]) == multiset(old(ls[..]))
    {
      SinkDown(ls, i);
      i := i + 1;
    }
    assert ls[..i] == ls[..];
  }

  /** One insertion step: the fragment at `i` moves down past every fragment
      before it that it is `Less` than. */
  method SinkDown(ls: array<LineFrag>, i: int)
    requires 0 <= i < ls.Length && Sorted(ls[..i])
    modifies ls
    ensures Sorted(ls[..i + 1])
    ensures multiset(ls[..i + 1]) == multiset(old(ls[..i + 1]))
    ensures ls[i + 1..] == old(ls[i + 1..])
    ensures multiset(ls[..]) == multiset(old(ls[..]))
  {
    SinkStart(ls[..], i);
    var j := i;
    while j > 0 && Less(ls[..], j, j - 1)
      invariant SinkInv(ls[..], old(ls[..]), i, j)
      invariant multiset(ls[..]) == multiset(old(ls[..]))
    {
      SinkStep(ls[..], old(ls[..]), i, j);
      Swap(ls, j, j - 1);
      j := j - 1;
    }
    SinkDone(ls[..], old(ls[..]), i, j);
    PrefixMultiset(ls[..], old(ls[..]), i + 1);
    assert ls[..][..i + 1] == ls[..i + 1];
    assert old(ls[..])[..i + 1] == old(ls[..i + 1]);
  }

  /** What holds while the fragment that started at `i` of `s0` sits at `j`
      of `s`: the other fragments up to `i` are in order, those after `j`
      all come later than it, and nothing past `i` has moved. */
  predicate SinkInv(s: seq<LineFrag>, s0: seq<LineFrag>, i: int, j: int) {
    && 0 <= j <= i < |s| == |s0|
    && (forall p, q :: 0 <= p < q <= i && p != j && q != j ==> s[p].lineNum <= s[q].lineNum)
    && (forall q :: j < q <= i ==> s[j].lineNum < s[q].lineNum)
    && s[i + 1..] == s0[i + 1..]
  }

  lemma SinkStart(s: seq<LineFrag>, i: int)
    requires 0 <= i < |s| && Sorted(s[..i])
    ensures SinkInv(s, s, i, i)
  {
    forall p, q | 0 <= p < q < i
      ensures s[p].lineNum <= s[q].lineNum
    {
      assert s[..i][p] == s[p] && s[..i][q] == s[q];
    }
  }

  lemma SinkStep(s: seq<LineFrag>, s0: seq<LineFrag>, i: int, j: int)
    requires SinkInv(s, s0, i, j) && j > 0 && Less(s, j, j - 1)
    ensures SinkInv(s[j := s[j - 1]][j - 1 := s[j]], s0, i, j - 1)
  {
  }

  lemma SinkDone(s: seq<LineFrag>, s0: seq<LineFrag>, i: int, j: int)
    requires SinkInv(s, s0, i, j) && (j == 0 || !Less(s, j, j - 1))
    ensures Sorted(s[..i + 1]) && s[i + 1..] == s0[i + 1..]
  {
    var t := s[..i + 1];
    forall p, q | 0 <= p < q < |t|
      ensures t[p].lineNum <= t[q].lineNum
    {
      assert t[p] == s[p] && t[q] == s[q];
    }
  }

  /** Two arrangements of the same fragments that agree from `k` on hold
      the same fragments before `k`. */
  lemma {:induction false} PrefixMultiset(a: seq<LineFrag>, b: seq<LineFrag>, k: nat)
    requires |a| == |b| && k <= |a|
    requires multiset(a) == multiset(b) && a[k..] == b[k..]
    ensures multiset(a[..k]) == multiset(b[..k])
  {
    assert a == a[..k] + a[k..];
    assert b == b[..k] + b[k..];
    calc {
      multiset(a[..k]);
      multiset(a) - multiset(a[k..]);
      multiset(b) - multiset(b[k..]);
      multiset(b[..k]);
    }
  }

  // ---------------------------------------------------------------------
  // The engine

  /** The tail of `mesoMain` after the drain: the fragments, taken from the
      map in any order, are sorted into an array and padded. Because the
      numbers are one past the keys, the result is the poem in key order,
      whatever order the drain produced. */
  method SortAndPad(linefragments: seq<LineFrag>, ghost m: map<int, LineFrag>, ghost n: nat, padCount: int)
    returns (mesostic: string)
    requires multiset(linefragments) == multiset(ByKey(m, n))
    requires forall k :: k in m ==> m[k].lineNum == k + 1 && 0 <= m[k].wChars <= padCount
    ensures Fits(ByKey(m, n), padCount)
    ensures mesostic == Render(ByKey(m, n), padCount)
  {
    var a := new LineFrag[|linefragments|](i requires 0 <= i < |linefragments| => linefragments[i]);
    assert a[..] == linefragments;
    SortFrags(a);
    ghost var want := ByKey(m, n);
    ByKeyIncreasing(m, n);
    SortedUnique(want, a[..]);
    ByKeyFits(m, n, padCount);
    mesostic := PadFrags(a[..], padCount);
  }

  /** The character loop of `mesoLine` on line `s`, with the current spine
      character `sc` and the next one `nc`: west side until the first
      `sc`, uppercased, then east side until the first `nc`. */
  method CharLoop(s: string, sc: char, nc: char) returns (wstack: string, estack: string)
    ensures (wstack, estack) == LegacyCut(s, sc, nc)
  {
    ghost var k := IndexOf(s, sc);
    wstack, estack := [], [];
    var mode := WestSide;
    var i := 0;
    while i < |s|
      invariant 0 <= i <= |s|
      invariant mode == WestSide ==> i <= k && wstack == s[..i] && estack == []
      invariant mode == EastSide ==>
        k < i && wstack == s[..k] + [Upper(sc)] && estack == s[k + 1..i] && nc !in estack
    {
      var ch := s[i];
      match mode {
        case WestSide =>
          if ch != sc {
            wstack := wstack + [ch];
          } else {
            wstack := wstack + [Upper(ch)];
            mode := EastSide;
          }
        case EastSide =>
          if ch != nc {
            estack := estack + [ch];
          } else {
            break;
          }
      }
      i := i + 1;
    }
    if mode == WestSide {
      assert s[..i] == s;
    } else {
      assert i == |s| || s[i] == nc;
      LegacyCutAt(s, sc, nc, k, i);
    }
  }

  /** Which side of the spine character `mesoLine` is filling. */
  datatype Side = WestSide | EastSide

  class Engine {
    var padCount: int
    var fragCount: int
    var fragMents: map<int, LineFrag>
    var ss: string
    var sca: seq<char>
    var ictus: int
    var nexus: int

    /** The globals `mesoLine` updates, as a value. */
    function Snapshot(): Legacy
      reads this`padCount, this`fragCount, this`fragMents, this`ictus, this`nexus
    {
      Legacy(padCount, fragCount, fragMents, ictus, nexus)
    }

    ghost predicate Valid()
      reads this`padCount, this`fragCount, this`fragMents, this`ictus, this`nexus
    {
      Sound(Snapshot())
    }

    /** The package's globals as the program starts. */
    constructor ()
      ensures Valid()
      ensures Snapshot() == Legacy(0, 0, map[], 0, 1)
      ensures ss == "craque" && sca == []
    {
      padCount := 0;
      fragCount := 0;
      fragMents := map[];
      ss := "craque";
      sca := [];
      ictus := 0;
      nexus := 1;
    }

    /** `Spine`: one entry per byte of `ss`, appended to what `sca` holds. */
    method Spine()
      modifies this`sca
      ensures sca == old(sca) + ss
    {
      var h := 0;
      while h < |ss|
        invariant 0 <= h <= |ss|
        invariant sca == old(sca) + ss[..h]
      {
        sca := sca + [ss[h]];
        assert ss[..h + 1] == ss[..h] + [ss[h]];
        h := h + 1;
      }
      assert ss[..h] == ss;
    }

    /** `Ictus(i)`: the cursor moves `i` places while it is short of the last
        character of `ss` and wraps to 0 from it; `nexus` follows it. */
    method Ictus(i: int)
      modifies this`ictus, this`nexus
      ensures (ictus, nexus) == Rotate(old(ictus), i, |ss|)
      ensures i == 1 && 0 <= old(ictus) < |ss| ==>
        ictus == (old(ictus) + 1) % |ss| && nexus == (ictus + 1) % |ss|
    {
      ghost var c := ictus;
      if ictus < |ss| - 1 {
        ictus := ictus + i;
      } else if ictus == |ss| - 1 {
        ictus := 0;
      }
      if ictus == |ss| - 1 {
        nexus := 0;
      } else {
        nexus := ictus + 1;
      }
      if i == 1 && 0 <= c < |ss| {
        RotateOne(c, |ss|);
      }
    }

    /** `mesoLine(s, c)`: cuts the line around the current spine character,
        records the fragment and rotates the spine. */
    method MesoLine(s: string, c: int)
      requires Valid() && 0 <= ictus < |sca| && 0 <= nexus < |sca|
      modifies this`padCount, this`fragCount, this`fragMents, this`ictus, this`nexus
      ensures Valid()
      ensures Snapshot() == Record(sca, |ss|, old(Snapshot()), s, c)
    {
      ghost var st := Snapshot();
      var wstack, estack := CharLoop(s, sca[ictus], sca[nexus]);
      var fragmentW := wstack;
      var fragmentE := estack;
      var fragkey := fragCount;
      if |fragmentW| > padCount {
        padCount := |fragmentW|;
      }
      fragCount := fragCount + 1;
      fragMents := fragMents[fragkey := LineFrag(c, fragCount, |fragmentW|, fragmentW + fragmentE)];
      Ictus(1);
      RecordSound(sca, |ss|, st, s, c);
    }

    /** The line loop of `mesoMain`: `mesoLine` on every line, lowercased,
        with the line count from 1. */
    method ReadLines(lines: seq<string>)
      requires Valid() && |ss| <= |sca| && Cursors(Snapshot(), |ss|)
      modifies this`padCount, this`fragCount, this`fragMents, this`ictus, this`nexus
      ensures Valid()
      ensures Snapshot() == Lines(sca, |ss|, old(Snapshot()), LowerAll(lines))
    {
      ghost var s0 := Snapshot();
      var lnc := 0;
      var j := 0;
      while j < |lines|
        invariant 0 <= j <= |lines| && lnc == j
        invariant Valid()
        invariant Snapshot() == Lines(sca, |ss|, s0, LowerAll(lines)[..j])
      {
        lnc := lnc + 1;
        MesoLine(LowerStr(lines[j]), lnc);
        LinesSnoc(sca, |ss|, s0, LowerAll(lines), j);
        j := j + 1;
      }
      assert LowerAll(lines)[..j] == LowerAll(lines);
    }

    /** The drain loop of `mesoMain`: every fragment moves from `fragMents`
        to the result, in whatever order the map yields its keys. */
    method Drain() returns (linefragments: seq<LineFrag>)
      requires Valid()
      modifies this`fragMents
      ensures Valid() && fragMents == map[]
      ensures multiset(linefragments) == multiset(ByKey(old(fragMents), fragCount))
    {
      ghost var all := fragMents;
      linefragments := [];
      while fragMents.Keys != {}
        invariant fragMents.Keys <= all.Keys
        invariant multiset(linefragments) + multiset(ByKey(fragMents, fragCount))
          == multiset(ByKey(all, fragCount))
        decreases |fragMents.Keys|
      {
        // Go's `range` over a map visits keys in no fixed order.
        HasKey(fragMents);
        var k :| k in fragMents;
        DrainStep(linefragments, fragMents, all, fragCount, k);
        linefragments := linefragments + [fragMents[k]];
        fragMents := fragMents - {k};
      }
      assert fragMents == map[];
      ByKeyNone(fragMents, fragCount);
    }

    /** `mesoMain` after the file is read: the spine is loaded, every line
        of `source` becomes a fragment, and the fragments come out sorted,
        padded and joined. */
    method MesoMain(source: string) returns (mesostic: string)
      requires Valid() && Cursors(Snapshot(), |ss|)
      modifies this`sca, this`padCount, this`fragCount, this`fragMents, this`ictus, this`nexus
      ensures sca == old(sca) + ss
      ensures var r := Lines(old(sca) + ss, |ss|, old(Snapshot()), LowerAll(SplitOn(source, {'\n'})));
        && Snapshot() == r.(fragMents := map[])
        && Fits(ByKey(r.fragMents, r.fragCount), r.padCount)
        && mesostic == Render(ByKey(r.fragMents, r.fragCount), r.padCount)
    {
      Spine();
      var lines := SplitOn(source, {'\n'});
      ReadLines(lines);
      ghost var r := Snapshot();
      var linefragments := Drain();
      mesostic := SortAndPad(linefragments, r.fragMents, r.fragCount, padCount);
    }
  }
}
