/** The few functions of Go's `strings` package the inflection engine uses,
    restricted to a one-character separator or cut set, over `seq<char>`. */
module Strings {

  /** Number of occurrences of `c` in `s` (`strings.Count` with a one-character separator). */
  function Count(s: string, c: char): (n: nat)
    ensures n <= |s|
  {
    if |s| == 0 then 0 else (if s[0] == c then 1 else 0) + Count(s[1..], c)
  }

  /** The count is zero exactly when the character does not occur. */
  lemma {:induction false} CountZero(s: string, c: char)
    ensures Count(s, c) == 0 <==> c !in s
    decreases |s|
  {
    if |s| > 0 {
      CountZero(s[1..], c);
      assert s == [s[0]] + s[1..];
    }
  }

  lemma {:induction false} CountAppend(a: string, b: string, c: char)
    ensures Count(a + b, c) == Count(a, c) + Count(b, c)
    decreases |a|
  {
    if |a| == 0 {
      assert a + b == b;
    } else {
      assert (a + b)[1..] == a[1..] + b;
      CountAppend(a[1..], b, c);
    }
  }

  /** `s` with every `c` deleted (`strings.Replace(s, c, "", -1)`). */
  function Remove(s: string, c: char): (r: string)
    ensures |r| == |s| - Count(s, c)
    ensures c !in r
  {
    if |s| == 0 then ""
    else if s[0] == c then Remove(s[1..], c)
    else [s[0]] + Remove(s[1..], c)
  }

  lemma {:induction false} RemoveAppend(a: string, b: string, c: char)
    ensures Remove(a + b, c) == Remove(a, c) + Remove(b, c)
    decreases |a|
  {
    if |a| == 0 {
      assert a + b == b;
    } else {
      assert (a + b)[1..] == a[1..] + b;
      RemoveAppend(a[1..], b, c);
    }
  }

  lemma {:induction false} RemoveAbsent(s: string, c: char)
    requires c !in s
    ensures Remove(s, c) == s
    decreases |s|
  {
    if |s| > 0 {
      RemoveAbsent(s[1..], c);
      assert [s[0]] + s[1..] == s;
    }
  }

  /** `n` copies of `c`. */
  function Repeat(c: char, n: nat): (s: string)
    ensures |s| == n
    ensures forall i | 0 <= i < n :: s[i] == c
  {
    seq(n, _ => c)
  }

  /** `strings.HasSuffix(s, suffix)`. */
  predicate HasSuffix(s: string, suffix: string)
    ensures HasSuffix(s, suffix) <==>
              |suffix| <= |s| && forall i | 0 <= i < |suffix| :: s[|s| - |suffix| + i] == suffix[i]
  {
    |suffix| <= |s| && s[|s| - |suffix|..] == suffix
  }

  /** `r` occurs in `s` at position `i`, and everything of `s` around it is `c`. */
  predicate PaddedAt(s: string, r: string, i: int, c: char) {
    && 0 <= i <= |s| - |r|
    && s[i..i + |r|] == r
    && (forall k | 0 <= k < i :: s[k] == c)
    && (forall k | i + |r| <= k < |s| :: s[k] == c)
  }

  /** `strings.Trim(s, [c])`: the leading run of `c` goes first, then the
      trailing one. */
  function Trim(s: string, c: char): (r: string)
    ensures |r| <= |s|
    ensures |r| == 0 || (r[0] != c && r[|r| - 1] != c)
  {
    if |s| > 0 && s[0] == c then Trim(s[1..], c)
    else if |s| > 0 && s[|s| - 1] == c then Trim(s[..|s| - 1], c)
    else s
  }

  /** Trimming only removes characters: one absent from the input is absent
      from the result. */
  lemma {:induction false} TrimKeepsAbsent(s: string, c: char, d: char)
    ensures d !in s ==> d !in Trim(s, c)
    decreases |s|
  {
    if |s| > 0 && s[0] == c {
      TrimKeepsAbsent(s[1..], c, d);
    } else if |s| > 0 && s[|s| - 1] == c {
      TrimKeepsAbsent(s[..|s| - 1], c, d);
    }
  }

  /** Trimming keeps the middle intact: the result sits inside the input with
      only cut characters around it. */
  lemma {:induction false} TrimPadded(s: string, c: char)
    ensures exists i :: PaddedAt(s, Trim(s, c), i, c)
    decreases |s|
  {
    var r := Trim(s, c);
    if |s| > 0 && s[0] == c {
      TrimPadded(s[1..], c);
      var i :| PaddedAt(s[1..], r, i, c);
      PaddedAfterLeading(s, r, i, c);
    } else if |s| > 0 && s[|s| - 1] == c {
      TrimPadded(s[..|s| - 1], c);
      var i :| PaddedAt(s[..|s| - 1], r, i, c);
      PaddedBeforeTrailing(s, r, i, c);
    } else {
      assert PaddedAt(s, r, 0, c);
    }
  }

  lemma PaddedAfterLeading(s: string, r: string, i: int, c: char)
    requires |s| > 0 && s[0] == c && PaddedAt(s[1..], r, i, c)
    ensures PaddedAt(s, r, i + 1, c)
  {
    assert s[1..][i..i + |r|] == s[i + 1..i + 1 + |r|];
    forall k | 1 <= k < i + 1
      ensures s[k] == c
    {
      assert s[k] == s[1..][k - 1];
    }
    forall k | i + 1 + |r| <= k < |s|
      ensures s[k] == c
    {
      assert s[k] == s[1..][k - 1];
    }
  }

  lemma PaddedBeforeTrailing(s: string, r: string, i: int, c: char)
    requires |s| > 0 && s[|s| - 1] == c && PaddedAt(s[..|s| - 1], r, i, c)
    ensures PaddedAt(s, r, i, c)
  {
    var s' := s[..|s| - 1];
    assert s'[i..i + |r|] == s[i..i + |r|];
    forall k | 0 <= k < i
      ensures s[k] == c
    {
      assert s[k] == s'[k];
    }
    forall k | i + |r| <= k < |s| - 1
      ensures s[k] == c
    {
      assert s[k] == s'[k];
    }
  }

  /** A text that neither starts nor ends with the cut character is its own trim. */
  lemma TrimUnpadded(x: string, c: char)
    requires |x| > 0 && x[0] != c && x[|x| - 1] != c
    ensures Trim(x, c) == x
  {
  }

  /** Trimming ignores any amount of padding around a text that does not
      itself start or end with the cut character. */
  lemma {:induction false} TrimPadding(p: nat, x: string, t: nat, c: char)
    requires |x| > 0 && x[0] != c && x[|x| - 1] != c
    ensures Trim(Repeat(c, p) + x + Repeat(c, t), c) == x
    decreases p
  {
    if p > 0 {
      assert (Repeat(c, p) + x + Repeat(c, t))[1..] == Repeat(c, p - 1) + x + Repeat(c, t);
      TrimPadding(p - 1, x, t, c);
    } else {
      assert Repeat(c, p) + x + Repeat(c, t) == x + Repeat(c, t);
      TrimTrailing(x, t, c);
    }
  }

  lemma {:induction false} TrimTrailing(x: string, t: nat, c: char)
    requires |x| > 0 && x[0] != c && x[|x| - 1] != c
    ensures Trim(x + Repeat(c, t), c) == x
    decreases t
  {
    if t > 0 {
      assert (x + Repeat(c, t))[..|x| + t - 1] == x + Repeat(c, t - 1);
      TrimTrailing(x, t - 1, c);
    } else {
      assert x + Repeat(c, t) == x;
    }
  }

  /** `strings.Split(s, [sep])`: the maximal `sep`-free pieces between separators.
      The empty string splits into one empty piece, as in Go. */
  function Split(s: string, sep: char): (parts: seq<string>)
    ensures |parts| == Count(s, sep) + 1
    decreases |s|
  {
    if |s| == 0 then [""]
    else if s[0] == sep then [""] + Split(s[1..], sep)
    else
      var rest := Split(s[1..], sep);
      [[s[0]] + rest[0]] + rest[1..]
  }

  /** No piece of a split holds the separator. */
  lemma {:induction false} SplitPieces(s: string, sep: char)
    ensures forall i | 0 <= i < |Split(s, sep)| :: sep !in Split(s, sep)[i]
    decreases |s|
  {
    if |s| > 0 {
      SplitPieces(s[1..], sep);
      var rest := Split(s[1..], sep);
      if s[0] != sep {
        assert Split(s, sep) == [[s[0]] + rest[0]] + rest[1..];
        assert forall i | 1 <= i < |Split(s, sep)| :: Split(s, sep)[i] == rest[i];
      } else {
        assert Split(s, sep) == [""] + rest;
      }
    }
  }

  /** `strings.Join(parts, [sep])`. */
  function Join(parts: seq<string>, sep: char): (r: string)
    ensures |parts| > 0 ==> |r| >= |parts[0]| + |parts| - 1
    ensures |parts| > 0 ==> r[..|parts[0]|] == parts[0]
    ensures |parts| > 1 ==> r[|parts[0]|] == sep
  {
    if |parts| == 0 then ""
    else if |parts| == 1 then parts[0]
    else parts[0] + [sep] + Join(parts[1..], sep)
  }

  /** Joining the pieces of a split gives back the original string. */
  lemma {:induction false} JoinSplit(s: string, sep: char)
    ensures Join(Split(s, sep), sep) == s
    decreases |s|
  {
    if |s| > 0 {
      JoinSplit(s[1..], sep);
      if s[0] == sep {
        JoinSplitSeparatorFirst(s, sep);
      } else {
        JoinSplitLetterFirst(s, sep);
      }
    }
  }

  lemma JoinSplitSeparatorFirst(s: string, sep: char)
    requires |s| > 0 && s[0] == sep
    requires Join(Split(s[1..], sep), sep) == s[1..]
    ensures Join(Split(s, sep), sep) == s
  {
    var rest := Split(s[1..], sep);
    assert Split(s, sep) == [""] + rest;
    JoinCons("", rest, sep);
    assert s == [sep] + s[1..];
  }

  lemma JoinSplitLetterFirst(s: string, sep: char)
    requires |s| > 0 && s[0] != sep
    requires Join(Split(s[1..], sep), sep) == s[1..]
    ensures Join(Split(s, sep), sep) == s
  {
    var rest := Split(s[1..], sep);
    var first := [s[0]] + rest[0];
    assert Split(s, sep) == [first] + rest[1..];
    if |rest| == 1 {
      assert Join(rest, sep) == rest[0];
      assert Join([first], sep) == first;
    } else {
      var tail := Join(rest[1..], sep);
      JoinCons(first, rest[1..], sep);
      JoinCons(rest[0], rest[1..], sep);
      assert rest == [rest[0]] + rest[1..];
      assert s[1..] == rest[0] + [sep] + tail;
      assert first + [sep] + tail == [s[0]] + (rest[0] + [sep] + tail);
    }
    assert s == [s[0]] + s[1..];
  }

  /** Three pieces joined: the separator once between each neighbouring pair. */
  lemma JoinThree(a: string, b: string, c: string, sep: char)
    ensures Join([a, b, c], sep) == a + [sep] + b + [sep] + c
  {
    JoinCons(a, [b, c], sep);
    JoinCons(b, [c], sep);
    assert [a] + [b, c] == [a, b, c];
    assert [b] + [c] == [b, c];
  }

  /** Joining a piece in front of at least one more piece. */
  lemma JoinCons(x: string, rest: seq<string>, sep: char)
    requires |rest| >= 1
    ensures Join([x] + rest, sep) == x + [sep] + Join(rest, sep)
  {
    assert ([x] + rest)[1..] == rest;
  }

  /** A `sep`-free prefix followed by `sep` becomes the first piece of the split. */
  lemma {:induction false} SplitAfterPiece(a: string, rest: string, sep: char)
    requires sep !in a
    ensures Split(a + [sep] + rest, sep) == [a] + Split(rest, sep)
    decreases |a|
  {
    if |a| == 0 {
      assert a + [sep] + rest == [sep] + rest;
      assert ([sep] + rest)[1..] == rest;
    } else {
      var s := a + [sep] + rest;
      assert s[0] == a[0];
      assert s[1..] == a[1..] + [sep] + rest;
      SplitAfterPiece(a[1..], rest, sep);
      assert [a[0]] + a[1..] == a;
    }
  }

  /** A string without `sep` splits into itself alone. */
  lemma {:induction false} SplitNoSeparator(a: string, sep: char)
    requires sep !in a
    ensures Split(a, sep) == [a]
    decreases |a|
  {
    if |a| > 0 {
      SplitNoSeparator(a[1..], sep);
      assert [a[0]] + a[1..] == a;
    }
  }

  /** A run of `k` separators before a separator-free piece splits into `k`
      empty pieces followed by that piece. */
  lemma {:induction false} SplitAfterRun(k: nat, b: string, sep: char)
    requires sep !in b
    ensures Split(Repeat(sep, k) + b, sep) == seq(k, _ => "") + [b]
    decreases k
  {
    if k == 0 {
      assert Repeat(sep, k) + b == b;
      SplitNoSeparator(b, sep);
    } else {
      assert Repeat(sep, k) + b == "" + [sep] + (Repeat(sep, k - 1) + b);
      SplitAfterPiece("", Repeat(sep, k - 1) + b, sep);
      SplitAfterRun(k - 1, b, sep);
      assert seq(k, _ => "") == [""] + seq(k - 1, _ => "");
    }
  }

  /** Splitting a join of `sep`-free pieces recovers the pieces. */
  lemma {:induction false} SplitJoin(parts: seq<string>, sep: char)
    requires |parts| >= 1
    requires forall i | 0 <= i < |parts| :: sep !in parts[i]
    ensures Split(Join(parts, sep), sep) == parts
    decreases |parts|
  {
    if |parts| == 1 {
      SplitNoSeparator(parts[0], sep);
    } else {
      SplitJoin(parts[1..], sep);
      SplitAfterPiece(parts[0], Join(parts[1..], sep), sep);
      assert [parts[0]] + parts[1..] == parts;
    }
  }

}
