/** ASCII models of the Go `strings` and `unicode` helpers both engines call.
    Text is a `seq<char>` holding ASCII only, so a byte length (`len`) and a
    rune count agree. */
module Text {

  /** `unicode.IsSpace` on ASCII: tab, newline, vertical tab, form feed,
      carriage return and space. */
  predicate IsSpace(c: char) {
    c == ' ' || ('\t' <= c <= '\r')
  }

  /** `unicode.ToLower` on ASCII. */
  function Lower(c: char): (r: char)
    ensures 'A' <= c <= 'Z' ==> 'a' <= r <= 'z' && r as int == c as int + 32
    ensures !('A' <= c <= 'Z') ==> r == c
  {
    if 'A' <= c <= 'Z' then (c as int + 32) as char else c
  }

  /** `unicode.ToUpper` on ASCII. */
  function Upper(c: char): (r: char)
    ensures 'a' <= c <= 'z' ==> 'A' <= r <= 'Z' && r as int == c as int - 32
    ensures !('a' <= c <= 'z') ==> r == c
  {
    if 'a' <= c <= 'z' then (c as int - 32) as char else c
  }

  /** `strings.ToLower` on ASCII: every character lowered, nothing else changed. */
  function LowerStr(s: string): (r: string)
    ensures |r| == |s|
    ensures forall i :: 0 <= i < |s| ==> r[i] == Lower(s[i])
    ensures forall i :: 0 <= i < |r| ==> !('A' <= r[i] <= 'Z')
    ensures forall i :: 0 <= i < |s| ==> Upper(r[i]) == Upper(s[i])
    ensures forall i :: 0 <= i < |s| && !('A' <= s[i] <= 'Z') ==> r[i] == s[i]
  {
    seq(|s|, i requires 0 <= i < |s| => Lower(s[i]))
  }

  /** `strings.ToLower` on each of `ls`. */
  function LowerAll(ls: seq<string>): (r: seq<string>)
    ensures |r| == |ls|
    ensures forall i :: 0 <= i < |ls| ==> r[i] == LowerStr(ls[i])
  {
    seq(|ls|, i requires 0 <= i < |ls| => LowerStr(ls[i]))
  }

  /** `strings.Repeat(" ", n)`. */
  function Spaces(n: nat): (r: string)
    ensures |r| == n
    ensures forall i :: 0 <= i < n ==> r[i] == ' '
  {
    seq(n, _ => ' ')
  }

  /** The index of the first non-whitespace character of `s` at or after
      `i`, or `|s|`. */
  function SkipSpace(s: string, i: nat): (k: nat)
    requires i <= |s|
    ensures i <= k <= |s|
    ensures forall j :: i <= j < k ==> IsSpace(s[j])
    ensures k < |s| ==> !IsSpace(s[k])
    decreases |s| - i
  {
    if i < |s| && IsSpace(s[i]) then SkipSpace(s, i + 1) else i
  }

  /** `strings.TrimSpace`: whitespace removed from both ends, one character
      at a time; the ends of the result are not whitespace. */
  function TrimSpace(s: string): (r: string)
    ensures |r| <= |s|
    ensures r == [] || (!IsSpace(r[0]) && !IsSpace(r[|r| - 1]))
    decreases |s|
  {
    if s == [] then []
    else if IsSpace(s[0]) then TrimSpace(s[1..])
    else if IsSpace(s[|s| - 1]) then TrimSpace(s[..|s| - 1])
    else s
  }

  /** Skipping spaces in `s[1..]` from `j` ends one place before skipping
      them in `s` from `j + 1`. */
  lemma {:induction false} SkipSpaceShift(s: string, j: nat)
    requires s != [] && j + 1 <= |s|
    ensures SkipSpace(s, j + 1) == 1 + SkipSpace(s[1..], j)
    decreases |s| - j
  {
    if j + 1 < |s| && IsSpace(s[j + 1]) {
      SkipSpaceShift(s, j + 1);
    }
  }

  /** `r` is the stretch of `s` that starts at `i`, and everything after it
      is whitespace. */
  predicate Cut(s: string, r: string, i: nat) {
    && i + |r| <= |s| && r == s[i..i + |r|]
    && forall j :: i + |r| <= j < |s| ==> IsSpace(s[j])
  }

  /** A cut of `s[1..]` at `i` is a cut of `s` at `i + 1`. */
  lemma {:induction false} CutFront(s: string, r: string, i: nat)
    requires s != [] && Cut(s[1..], r, i)
    ensures Cut(s, r, i + 1)
  {
    assert s[1..][i..i + |r|] == s[i + 1..i + 1 + |r|];
    forall j | i + 1 + |r| <= j < |s|
      ensures IsSpace(s[j])
    {
      assert s[j] == s[1..][j - 1];
    }
  }

  /** A cut of `s` without its last character is a cut of `s` when that
      character is whitespace. */
  lemma {:induction false} CutBack(s: string, r: string, i: nat)
    requires s != [] && IsSpace(s[|s| - 1]) && Cut(s[..|s| - 1], r, i)
    ensures Cut(s, r, i)
  {
    var t := s[..|s| - 1];
    assert t[i..i + |r|] == s[i..i + |r|];
    forall j | i + |r| <= j < |s|
      ensures IsSpace(s[j])
    {
      if j < |t| {
        assert s[j] == t[j];
      }
    }
  }

  /** `TrimSpace` cuts exactly the leading run of whitespace and a trailing
      run of whitespace: the result is the stretch of `s` that starts at the
      first non-whitespace character, and everything after it is
      whitespace. */
  lemma {:induction false} TrimSpaceCuts(s: string)
    ensures Cut(s, TrimSpace(s), SkipSpace(s, 0))
    decreases |s|
  {
    if s == [] {
    } else if IsSpace(s[0]) {
      TrimSpaceCuts(s[1..]);
      SkipSpaceShift(s, 0);
      CutFront(s, TrimSpace(s[1..]), SkipSpace(s[1..], 0));
    } else if IsSpace(s[|s| - 1]) {
      var t := s[..|s| - 1];
      TrimSpaceCuts(t);
      assert SkipSpace(t, 0) == 0;
      CutBack(s, TrimSpace(t), 0);
    }
  }

  /** Trimming keeps a last character that is not whitespace: the result is
      non-empty and ends with it. */
  lemma {:induction false} TrimKeepsLast(s: string)
    requires s != [] && !IsSpace(s[|s| - 1])
    ensures var r := TrimSpace(s); r != [] && r[|r| - 1] == s[|s| - 1]
    decreases |s|
  {
    if IsSpace(s[0]) {
      TrimKeepsLast(s[1..]);
    }
  }

  /** The index of the first `c` in `s` at or after `i`, or `|s|` when
      there is none. */
  function IndexFrom(s: string, c: char, i: nat): (k: nat)
    requires i <= |s|
    ensures i <= k <= |s|
    ensures forall j :: i <= j < k ==> s[j] != c
    ensures k < |s| ==> s[k] == c
    decreases |s| - i
  {
    if i == |s| then i
    else if s[i] == c then i
    else IndexFrom(s, c, i + 1)
  }

  /** The index of the first `c` in `s`, or `|s|` when there is none. */
  function IndexOf(s: string, c: char): (k: nat)
    ensures k <= |s|
    ensures forall j :: 0 <= j < k ==> s[j] != c
    ensures k < |s| ==> s[k] == c
    ensures k == |s| <==> c !in s
  {
    IndexFrom(s, c, 0)
  }

  /** `strings.Split` (and `regexp.Split(s, -1)` for a one-character class)
      on every character in `seps`: empty pieces are kept, so `n` separators
      give `n + 1` pieces. */
  function SplitOn(s: string, seps: set<char>): (r: seq<string>)
    ensures |r| >= 1
    ensures forall i :: 0 <= i < |r| ==> forall c :: c in r[i] ==> c !in seps
    decreases |s|
  {
    if s == [] then [""]
    else
      var rest := SplitOn(s[1..], seps);
      if s[0] in seps then [""] + rest
      else [[s[0]] + rest[0]] + rest[1..]
  }

  /** A string without separators is one piece. */
  lemma {:induction false} SplitNone(s: string, seps: set<char>)
    requires forall i :: 0 <= i < |s| ==> s[i] !in seps
    ensures SplitOn(s, seps) == [s]
    decreases |s|
  {
    if s != [] {
      SplitNone(s[1..], seps);
      assert s == [s[0]] + s[1..];
    }
  }

  /** Splitting distributes over a separator: the pieces of `a + [x] + b`
      are the pieces of `a` followed by the pieces of `b`. */
  lemma {:induction false} SplitAppend(a: string, x: char, b: string, seps: set<char>)
    requires x in seps
    ensures SplitOn(a + [x] + b, seps) == SplitOn(a, seps) + SplitOn(b, seps)
    decreases |a|
  {
    var s := a + [x] + b;
    if a == [] {
      assert s[1..] == b;
    } else {
      assert s[0] == a[0];
      assert s[1..] == a[1..] + [x] + b;
      SplitAppend(a[1..], x, b, seps);
    }
  }

  /** The separators of `s`, in order. */
  function Separators(s: string, seps: set<char>): (r: string)
    ensures forall c :: c in r ==> c in seps
    ensures |r| <= |s|
    decreases |s|
  {
    if s == [] then []
    else if s[0] in seps then [s[0]] + Separators(s[1..], seps)
    else Separators(s[1..], seps)
  }

  /** Glues `pieces` back together with the separator characters `glue`
      between neighbours. */
  function Interleave(pieces: seq<string>, glue: string): (r: string)
    requires |pieces| == |glue| + 1
    decreases |glue|
  {
    if glue == [] then pieces[0]
    else pieces[0] + [glue[0]] + Interleave(pieces[1..], glue[1..])
  }

  /** Splitting loses nothing: the pieces, glued back with the separators that
      were cut out, give the input again, and there is one piece more than
      there are separators. */
  lemma {:induction false} SplitRejoin(s: string, seps: set<char>)
    ensures |SplitOn(s, seps)| == |Separators(s, seps)| + 1
    ensures Interleave(SplitOn(s, seps), Separators(s, seps)) == s
    decreases |s|
  {
    if s != [] {
      var rest := SplitOn(s[1..], seps);
      var glue := Separators(s[1..], seps);
      SplitRejoin(s[1..], seps);
      if s[0] in seps {
        assert SplitOn(s, seps)[1..] == rest;
        assert s == [s[0]] + s[1..];
      } else {
        var head := [s[0]] + rest[0];
        assert SplitOn(s, seps) == [head] + rest[1..];
        if glue == [] {
          assert Interleave(rest, glue) == rest[0];
        } else {
          assert Interleave(rest, glue) == rest[0] + [glue[0]] + Interleave(rest[1..], glue[1..]);
          assert ([head] + rest[1..])[1..] == rest[1..];
        }
        assert s == [s[0]] + s[1..];
      }
    }
  }
}
