/** The Python `str` built-ins the resume converter relies on, over `seq<char>`:
    `s.split('\n')`, `s.strip()`, `s.isupper()`, `s.startswith(c)` and the
    slice `s[:n]`, with `'\n'.join(parts)` as the reference that states what
    `split` keeps. Whitespace is Python's whole `isspace()` set; letter case
    is decided on the ASCII range only, every other character counting as
    uncased. */
module PyText {

  /** `c.isspace()`: tab, line feed, vertical tab, form feed, carriage return,
      the separators 0x1C-0x1F, space, next line, no-break space, and the
      Unicode space separators and line/paragraph separators. */
  predicate IsSpace(c: char) {
    c == ' ' || '\t' <= c <= '\r' || '\U{1C}' <= c <= '\U{1F}' ||
    c == '\U{85}' || c == '\U{A0}' || c == '\U{1680}' ||
    '\U{2000}' <= c <= '\U{200A}' || c == '\U{2028}' || c == '\U{2029}' ||
    c == '\U{202F}' || c == '\U{205F}' || c == '\U{3000}'
  }

  /** On the ASCII range `isspace()` holds for exactly the six characters of
      Python's `string.whitespace` and the four separators 0x1C-0x1F; beyond
      it, next line, no-break space and the ideographic space are whitespace
      while letters of every script are not. */
  lemma AsciiSpaces(c: char)
    ensures c < '\U{80}' ==> (IsSpace(c) <==> c in " \t\n\r\U{0B}\U{0C}\U{1C}\U{1D}\U{1E}\U{1F}")
    ensures c == '\U{85}' || c == '\U{A0}' || c == '\U{3000}' ==> IsSpace(c)
    ensures IsSpace(c) ==> Uncased(c)
  {
  }

  predicate IsLowerChar(c: char) { 'a' <= c <= 'z' }

  predicate IsUpperChar(c: char) { 'A' <= c <= 'Z' }

  predicate AllSpace(s: string) {
    forall i :: 0 <= i < |s| ==> IsSpace(s[i])
  }

  lemma AllSpaceConcat(a: string, b: string)
    ensures AllSpace(a + b) <==> AllSpace(a) && AllSpace(b)
  {
    if AllSpace(a) && AllSpace(b) {
      forall i | 0 <= i < |a + b| ensures IsSpace((a + b)[i]) {
        if i >= |a| { assert (a + b)[i] == b[i - |a|]; }
      }
    }
    if AllSpace(a + b) {
      forall i | 0 <= i < |b| ensures IsSpace(b[i]) {
        assert b[i] == (a + b)[|a| + i];
      }
      forall i | 0 <= i < |a| ensures IsSpace(a[i]) {
        assert a[i] == (a + b)[i];
      }
    }
  }

  /** Where `s.strip()` starts: the first non-whitespace index at or after
      `i`, or `|s|` when there is none. */
  function SkipSpace(s: string, i: nat): (k: nat)
    requires i <= |s|
    ensures i <= k <= |s|
    ensures forall t :: i <= t < k ==> IsSpace(s[t])
    ensures k < |s| ==> !IsSpace(s[k])
    decreases |s| - i
  {
    if i < |s| && IsSpace(s[i]) then SkipSpace(s, i + 1) else i
  }

  /** Where `s.strip()` ends: the end of `s[lo..j]` once its trailing
      whitespace is dropped, never before `lo`. */
  function TrimEnd(s: string, lo: nat, j: nat): (m: nat)
    requires lo <= j <= |s|
    ensures lo <= m <= j
    ensures forall t :: m <= t < j ==> IsSpace(s[t])
    ensures m > lo ==> !IsSpace(s[m - 1])
  {
    if j > lo && IsSpace(s[j - 1]) then TrimEnd(s, lo, j - 1) else j
  }

  function StripStart(s: string): (i: nat)
    ensures i <= |s|
  {
    SkipSpace(s, 0)
  }

  function StripEnd(s: string): (j: nat)
    ensures StripStart(s) <= j <= |s|
  {
    TrimEnd(s, StripStart(s), |s|)
  }

  /** `s.strip()`: `s` without its leading and trailing whitespace. What is
      left is empty exactly when `s` is all whitespace, and otherwise begins
      and ends with a non-whitespace character. */
  function Strip(s: string): (r: string)
    ensures r == [] <==> AllSpace(s)
    ensures r != [] ==> !IsSpace(r[0]) && !IsSpace(r[|r| - 1])
    ensures |r| <= |s|
  {
    var i, j := StripStart(s), StripEnd(s);
    assert i == j ==> forall t :: 0 <= t < |s| ==> IsSpace(s[t]) by {
      if i == j {
        forall t | 0 <= t < |s| ensures IsSpace(s[t]) {
          if t >= i { assert j <= t < |s|; }
        }
      }
    }
    s[i..j]
  }

  /** Strip is the only trim of `s`: any slice `s[i..j]` whose outside is all
      whitespace and whose ends are not whitespace is `s.strip()`. */
  lemma {:induction false} StripUnique(s: string, i: nat, j: nat)
    requires i <= j <= |s|
    requires forall t :: 0 <= t < i ==> IsSpace(s[t])
    requires forall t :: j <= t < |s| ==> IsSpace(s[t])
    requires i < j ==> !IsSpace(s[i]) && !IsSpace(s[j - 1])
    ensures Strip(s) == s[i..j]
  {
  }

  /** A tail whose first and last characters are not whitespace survives
      `strip()`. */
  lemma StripKeepsTail(s: string, e: string)
    requires EndsWith(s, e)
    requires e != [] && !IsSpace(e[0]) && !IsSpace(e[|e| - 1])
    ensures EndsWith(Strip(s), e)
  {
    var k := StripStart(s);
    assert k <= |s| - |e| by {
      assert !IsSpace(s[|s| - |e|]);
    }
    assert !IsSpace(s[|s| - 1]);
    StripUnique(s, k, |s|);
    assert Strip(s)[|Strip(s)| - |e|..] == s[|s| - |e|..];
  }

  lemma StripIdempotent(s: string)
    ensures Strip(Strip(s)) == Strip(s)
  {
  }

  /** `s.isupper()`, computed as CPython does: scan left to right, give up
      at the first lower-case character and remember whether an upper-case
      one has been seen. The result is true exactly when some character from
      `i` on is upper-case (or one before `i` was, `cased`) and none from `i`
      on is lower-case. */
  function UpperScan(s: string, i: nat, cased: bool): (r: bool)
    requires i <= |s|
    ensures r <==> (cased || exists j :: i <= j < |s| && IsUpperChar(s[j])) &&
                   forall j :: i <= j < |s| ==> !IsLowerChar(s[j])
    decreases |s| - i
  {
    if i == |s| then cased
    else if IsLowerChar(s[i]) then false
    else UpperScan(s, i + 1, cased || IsUpperChar(s[i]))
  }

  /** `s.isupper()`: at least one cased character and no lower-case one. */
  function IsUpper(s: string): (r: bool)
    ensures r <==> (exists i :: 0 <= i < |s| && IsUpperChar(s[i])) &&
                   forall i :: 0 <= i < |s| ==> !IsLowerChar(s[i])
  {
    UpperScan(s, 0, false)
  }

  /** Whitespace is uncased, so stripping a line never changes `isupper()`. */
  lemma StripKeepsIsUpper(s: string)
    ensures IsUpper(Strip(s)) <==> IsUpper(s)
  {
    var i, j := StripStart(s), StripEnd(s);
    forall k | 0 <= k < |s| && !(i <= k < j)
      ensures Uncased(s[k])
    {
      SpaceIsUncased(s[k]);
    }
    IsUpperSlice(s, i, j);
  }

  /** A character that is neither upper- nor lower-case. */
  predicate Uncased(c: char) {
    !IsUpperChar(c) && !IsLowerChar(c)
  }

  lemma SpaceIsUncased(c: char)
    requires IsSpace(c)
    ensures Uncased(c)
  {
  }

  /** Cutting uncased characters off both ends keeps `isupper()`. */
  lemma IsUpperSlice(s: string, i: nat, j: nat)
    requires i <= j <= |s|
    requires forall k :: 0 <= k < |s| && !(i <= k < j) ==> Uncased(s[k])
    ensures IsUpper(s[i..j]) <==> IsUpper(s)
  {
    var r := s[i..j];
    if IsUpper(s) {
      var k :| 0 <= k < |s| && IsUpperChar(s[k]);
      assert r[k - i] == s[k];
    }
    if IsUpper(r) {
      var k :| 0 <= k < |r| && IsUpperChar(r[k]);
      assert s[i + k] == r[k];
      forall m | 0 <= m < |s|
        ensures !IsLowerChar(s[m])
      {
        if i <= m < j {
          assert s[m] == r[m - i];
        }
      }
    }
  }

  /** `s.startswith(c)` for a one-character prefix. */
  predicate StartsWith(s: string, c: char) {
    |s| > 0 && s[0] == c
  }

  /** `s.startswith(c)` holds exactly when the one-character string `c` is a
      prefix of `s`; the empty string starts with nothing. */
  lemma StartsWithPrefix(s: string, c: char)
    ensures StartsWith(s, c) <==> |s| >= 1 && s[..1] == [c]
    ensures StartsWith([c] + s, c) && !StartsWith([], c)
  {
  }

  /** `s.endswith(e)`. */
  predicate EndsWith(s: string, e: string) {
    |e| <= |s| && s[|s| - |e|..] == e
  }

  function Min(a: nat, b: nat): nat { if a <= b then a else b }

  /** `s[:n]`: the first `n` characters, or all of `s` when it is shorter. */
  function Prefix(s: string, n: nat): (r: string)
    ensures |r| == Min(|s|, n)
    ensures r <= s
  {
    if |s| <= n then s else s[..n]
  }

  /** `s.split('\n')`: the pieces between line feeds, in order; the empty
      string gives one empty piece and a trailing line feed gives a trailing
      empty piece. */
  function Split(s: string): (r: seq<string>)
    ensures |r| >= 1
  {
    if s == [] then
      [[]]
    else
      var rest := Split(s[1..]);
      if s[0] == '\n' then [[]] + rest else [[s[0]] + rest[0]] + rest[1..]
  }

  /** No piece of `split('\n')` holds a line feed. */
  lemma {:induction false} SplitPiecesHaveNoNewline(s: string)
    ensures forall i :: 0 <= i < |Split(s)| ==> '\n' !in Split(s)[i]
  {
    if s != [] {
      SplitPiecesHaveNoNewline(s[1..]);
      SplitCons(s[0], s[1..]);
      assert s == [s[0]] + s[1..];
      var rest := Split(s[1..]);
      if s[0] != '\n' {
        assert '\n' !in rest[0];
        assert '\n' !in [s[0]] + rest[0];
      }
    }
  }

  /** There is one more piece than there are line feeds. */
  lemma {:induction false} SplitCount(s: string)
    ensures |Split(s)| == multiset(s)['\n'] + 1
  {
    if s != [] {
      SplitCount(s[1..]);
      assert s == [s[0]] + s[1..];
    }
  }

  /** `'\n'.join(parts)`: not called by the converter, but the inverse that
      says `split('\n')` loses nothing. */
  function Join(parts: seq<string>): (r: string)
    ensures |parts| > 0 ==> |r| >= |parts| - 1
  {
    if |parts| == 0 then []
    else if |parts| == 1 then parts[0]
    else parts[0] + "\n" + Join(parts[1..])
  }

  /** Joining the pieces of `split('\n')` with line feeds gives back `s`. */
  lemma {:induction false} JoinSplit(s: string)
    ensures Join(Split(s)) == s
  {
    if s != [] {
      var c, t := s[0], s[1..];
      assert s == [c] + t;
      JoinSplit(t);
      SplitCons(c, t);
      if c == '\n' {
        JoinNewPiece(Split(t));
      } else {
        JoinConsPiece(c, Split(t));
      }
    }
  }

  /** Concatenation is associative; stated once so that proofs can cite it. */
  lemma Assoc<T>(a: seq<T>, b: seq<T>, c: seq<T>)
    ensures a + (b + c) == (a + b) + c
  {
  }

  /** A leading empty piece adds a leading line feed to the join. */
  lemma JoinNewPiece(rest: seq<string>)
    requires |rest| >= 1
    ensures Join([[]] + rest) == "\n" + Join(rest)
  {
    var p := [[]] + rest;
    assert p[0] == [] && p[1..] == rest;
    assert [] + "\n" == "\n";
  }

  /** A character put in front of the first piece is put in front of the join. */
  lemma JoinConsPiece(c: char, rest: seq<string>)
    requires |rest| >= 1
    ensures Join([[c] + rest[0]] + rest[1..]) == [c] + Join(rest)
  {
    var p := [[c] + rest[0]] + rest[1..];
    assert p[0] == [c] + rest[0] && p[1..] == rest[1..];
    if |rest| > 1 {
      Assoc([c], rest[0], "\n");
      Assoc([c], rest[0] + "\n", Join(rest[1..]));
    }
  }

  /** `line` is all of `s`, or a tail of `s` that follows a line feed. */
  predicate AfterLastBreak(s: string, line: string) {
    EndsWith(s, line) && (|line| < |s| ==> s[|s| - |line| - 1] == '\n')
  }

  /** The last piece of `split('\n')` is what follows the last line feed:
      a suffix of `s` preceded by a line feed, or all of `s`. */
  lemma LastPieceIsSuffix(s: string)
    ensures AfterLastBreak(s, Split(s)[|Split(s)| - 1])
  {
    var rl := Split(s);
    var n := |rl| - 1;
    var line := rl[n];
    JoinSplit(s);
    if n > 0 {
      assert rl == rl[..n] + [line];
      JoinAppend(rl[..n], line);
      var p := Join(rl[..n]) + "\n";
      assert s == p + line;
      assert s[|s| - |line|..] == line;
      assert s[|s| - |line| - 1] == p[|p| - 1];
    } else {
      assert rl == [line];
    }
  }

  /** A tail of `s` without line feeds is also a tail of its last piece. */
  lemma LastPieceKeepsTail(s: string, e: string)
    requires EndsWith(s, e) && '\n' !in e
    ensures EndsWith(Split(s)[|Split(s)| - 1], e)
  {
    LastPieceIsSuffix(s);
    var pieces := Split(s);
    TailAfterNewline(s, pieces[|pieces| - 1], e);
  }

  /** A line-feed-free tail `e` of `s` lies inside any tail `line` of `s`
      that is the whole of `s` or follows a line feed. */
  lemma TailAfterNewline(s: string, line: string, e: string)
    requires AfterLastBreak(s, line)
    requires EndsWith(s, e) && '\n' !in e
    ensures EndsWith(line, e)
  {
    assert |line| >= |e| by {
      forall j | |s| - |e| <= j < |s|
        ensures s[j] != '\n'
      {
        assert s[j] == e[j - (|s| - |e|)];
      }
    }
    assert line[|line| - |e|..] == s[|s| - |e|..];
  }

  /** Splitting a line-feed-free `p` glued in front of `t` extends the first
      piece of `t`. */
  lemma {:induction false} SplitPrefix(p: string, t: string)
    requires '\n' !in p
    ensures Split(p + t) == [p + Split(t)[0]] + Split(t)[1..]
  {
    var q := Split(t);
    if p == [] {
      assert p + t == t && p + q[0] == q[0];
      assert [q[0]] + q[1..] == q;
    } else {
      var s := p + t;
      assert p[0] in p;
      assert s[0] == p[0] && s[1..] == p[1..] + t;
      SplitPrefix(p[1..], t);
      var rest := Split(s[1..]);
      assert rest == [p[1..] + q[0]] + q[1..];
      assert Split(s) == [[s[0]] + rest[0]] + rest[1..];
      assert [s[0]] + rest[0] == p + q[0] by {
        assert p == [p[0]] + p[1..];
      }
      assert rest[1..] == q[1..];
    }
  }

  /** Split undoes Join for pieces without line feeds. */
  lemma {:induction false} SplitJoin(parts: seq<string>)
    requires |parts| > 0
    requires forall i :: 0 <= i < |parts| ==> '\n' !in parts[i]
    ensures Split(Join(parts)) == parts
  {
    if |parts| == 1 {
      var p := parts[0];
      SplitPrefix(p, []);
      assert p + [] == p;
      assert Split([]) == [[]];
      assert Split(p) == [p];
      assert parts == [p];
    } else {
      var tail := Join(parts[1..]);
      SplitJoin(parts[1..]);
      assert Join(parts) == parts[0] + ("\n" + tail);
      SplitPrefix(parts[0], "\n" + tail);
      assert ("\n" + tail)[1..] == tail;
      var q := Split("\n" + tail);
      assert q == [[]] + parts[1..];
      assert q[0] == [] && q[1..] == parts[1..];
      assert parts[0] + q[0] == parts[0];
      assert parts == [parts[0]] + parts[1..];
    }
  }

  /** One step of `split('\n')`: a leading line feed starts a new piece,
      any other character joins the first piece. */
  lemma SplitCons(c: char, t: string)
    ensures Split([c] + t) ==
      if c == '\n' then [[]] + Split(t) else [[c] + Split(t)[0]] + Split(t)[1..]
  {
    assert ([c] + t)[0] == c && ([c] + t)[1..] == t;
  }

  /** A line feed between `a` and `b` separates their pieces. */
  lemma SplitNewline(a: string, b: string)
    ensures Split(a + "\n" + b) == Split(a) + Split(b)
  {
    var pa, pb := Split(a), Split(b);
    assert forall i :: 0 <= i < |pa + pb| ==> '\n' !in (pa + pb)[i] by {
      SplitPiecesHaveNoNewline(a);
      SplitPiecesHaveNoNewline(b);
      forall i | 0 <= i < |pa + pb|
        ensures '\n' !in (pa + pb)[i]
      {
        if i >= |pa| {
          assert (pa + pb)[i] == pb[i - |pa|];
        }
      }
    }
    assert Join(pa + pb) == a + "\n" + b by {
      JoinSplit(a);
      JoinSplit(b);
      JoinConcat(pa, pb);
    }
    SplitJoin(pa + pb);
  }

  /** Joining two non-empty lists of pieces puts one line feed between their joins. */
  lemma {:induction false} JoinConcat(p: seq<string>, q: seq<string>)
    requires |p| > 0 && |q| > 0
    ensures Join(p + q) == Join(p) + "\n" + Join(q)
  {
    if |p| == 1 {
      assert (p + q)[1..] == q;
    } else {
      JoinConcat(p[1..], q);
      assert (p + q)[1..] == p[1..] + q;
    }
  }

  /** The pieces of every element of `parts`, in order. */
  function SplitEach(parts: seq<string>): (r: seq<string>)
    ensures |r| >= |parts|
  {
    if parts == [] then [] else Split(parts[0]) + SplitEach(parts[1..])
  }

  lemma {:induction false} SplitEachAppend(parts: seq<string>, x: string)
    ensures SplitEach(parts + [x]) == SplitEach(parts) + Split(x)
  {
    var p := parts + [x];
    if parts == [] {
      assert p == [x] && p[1..] == [];
      calc {
        SplitEach(p);
        Split(x) + SplitEach([]);
        Split(x);
        SplitEach(parts) + Split(x);
      }
    } else {
      assert p[0] == parts[0] && p[1..] == parts[1..] + [x];
      SplitEachAppend(parts[1..], x);
      calc {
        SplitEach(p);
        Split(parts[0]) + SplitEach(parts[1..] + [x]);
        Split(parts[0]) + (SplitEach(parts[1..]) + Split(x));
        (Split(parts[0]) + SplitEach(parts[1..])) + Split(x);
        SplitEach(parts) + Split(x);
      }
    }
  }

  /** Splitting a join gives the pieces of each joined part, in order, even
      when the parts contain line feeds themselves. */
  lemma {:induction false} SplitJoinEach(parts: seq<string>)
    requires |parts| > 0
    ensures Split(Join(parts)) == SplitEach(parts)
  {
    if |parts| == 1 {
      assert parts[1..] == [];
      assert SplitEach(parts) == Split(parts[0]) + [];
    } else {
      SplitJoinEach(parts[1..]);
      SplitNewline(parts[0], Join(parts[1..]));
    }
  }

  /** Appending a piece to a join adds one separator and the piece. */
  lemma {:induction false} JoinAppend(parts: seq<string>, x: string)
    requires |parts| > 0
    ensures Join(parts + [x]) == Join(parts) + "\n" + x
  {
    if |parts| == 1 {
      assert parts + [x] == [parts[0], x];
    } else {
      JoinAppend(parts[1..], x);
      assert (parts + [x])[1..] == parts[1..] + [x];
    }
  }
}
