/** String helpers shared by the codec: Python's `str.replace`, `str * n`,
    `str.lower()` and a character count, together with the Option and
    Result wrappers used for Python's `None` and for raised exceptions. */
module Text {

  datatype Option<+T> = None | Some(value: T)

  datatype Result<+R, +E> = Success(value: R) | Failure(error: E)

  /** Number of occurrences of `c` in `s`. */
  function Count(s: string, c: char): (n: nat)
    ensures n <= |s|
    ensures n == 0 <==> c !in s
    ensures n == |s| <==> forall i :: 0 <= i < |s| ==> s[i] == c
  {
    if s == [] then 0 else (if s[0] == c then 1 else 0) + Count(s[1..], c)
  }

  lemma {:induction false} CountConcat(a: string, b: string, c: char)
    ensures Count(a + b, c) == Count(a, c) + Count(b, c)
  {
    if a != [] {
      assert (a + b)[1..] == a[1..] + b;
      CountConcat(a[1..], b, c);
    } else {
      assert a + b == b;
    }
  }

  /** Whether `c` occurs an odd number of times in `s`. */
  function OddCount(s: string, c: char): bool
  {
    if s == [] then false else (s[0] == c) != OddCount(s[1..], c)
  }

  lemma {:induction false} OddCountConcat(a: string, b: string, c: char)
    ensures OddCount(a + b, c) == (OddCount(a, c) != OddCount(b, c))
  {
    if a != [] {
      assert (a + b)[1..] == a[1..] + b;
      OddCountConcat(a[1..], b, c);
    } else {
      assert a + b == b;
    }
  }

  lemma {:induction false} OddCountAbsent(s: string, c: char)
    requires c !in s
    ensures !OddCount(s, c)
  {
    if s != [] {
      assert s[0] in s;
      assert forall m :: 0 <= m < |s| - 1 ==> s[1..][m] == s[m + 1];
      OddCountAbsent(s[1..], c);
    }
  }

  /** Python's `c * k` for a one-character string `c` and `k >= 0`. */
  function Repeat(c: char, k: nat): (r: string)
    ensures |r| == k
    ensures forall i :: 0 <= i < k ==> r[i] == c
  {
    if k == 0 then "" else [c] + Repeat(c, k - 1)
  }

  lemma RepeatCount(c: char, k: nat, d: char)
    ensures Count(Repeat(c, k), d) == if d == c then k else 0
  {
  }

  /** Python's `str.lower()` restricted to what it does on ASCII text. */
  function LowerChar(c: char): char
  {
    if 'A' <= c <= 'Z' then (c as int + 32) as char else c
  }

  function Lower(s: string): (r: string)
    ensures |r| == |s|
    ensures forall i :: 0 <= i < |s| ==> r[i] == LowerChar(s[i])
  {
    seq(|s|, i requires 0 <= i < |s| => LowerChar(s[i]))
  }

  function UpperChar(c: char): char
  {
    if 'a' <= c <= 'z' then (c as int - 32) as char else c
  }

  function Upper(s: string): (r: string)
    ensures |r| == |s|
    ensures forall i :: 0 <= i < |s| ==> r[i] == UpperChar(s[i])
  {
    seq(|s|, i requires 0 <= i < |s| => UpperChar(s[i]))
  }

  /** Python's `s.replace(pat, rep)`: every non-overlapping occurrence of a
      non-empty `pat`, found left to right, is replaced by `rep`. */
  function Replace(s: string, pat: string, rep: string): string
    requires pat != []
    decreases |s|
  {
    if |s| < |pat| then s
    else if s[..|pat|] == pat then rep + Replace(s[|pat|..], pat, rep)
    else [s[0]] + Replace(s[1..], pat, rep)
  }

  /** A character that is neither in the text nor in the replacement is not
      in the result. */
  lemma {:induction false} ReplaceKeepsAbsent(s: string, pat: string, rep: string, d: char)
    requires pat != []
    requires d !in s && d !in rep
    ensures d !in Replace(s, pat, rep)
    decreases |s|
  {
    if |s| < |pat| {
    } else if s[..|pat|] == pat {
      ReplaceKeepsAbsent(s[|pat|..], pat, rep, d);
    } else {
      ReplaceKeepsAbsent(s[1..], pat, rep, d);
    }
  }

  /** Replacing a single character by text that does not contain it leaves
      none of it behind. */
  lemma {:induction false} ReplaceCharGone(s: string, c: char, rep: string)
    requires c !in rep
    ensures c !in Replace(s, [c], rep)
    decreases |s|
  {
    if s != [] {
      ReplaceCharGone(s[1..], c, rep);
      if s[0] == c {
        assert s[..1] == [c];
      } else {
        assert s[..1] != [c];
      }
    }
  }

  /** Replacing a single character works position by position, so it
      distributes over concatenation. */
  lemma {:induction false} ReplaceCharConcat(a: string, b: string, c: char, rep: string)
    ensures Replace(a + b, [c], rep) == Replace(a, [c], rep) + Replace(b, [c], rep)
    decreases |a|
  {
    if a == [] {
      assert a + b == b;
    } else {
      assert (a + b)[1..] == a[1..] + b;
      assert (a + b)[..1] == a[..1];
      ReplaceCharConcat(a[1..], b, c, rep);
    }
  }

  /** Text without the character is left as it is. */
  lemma {:induction false} ReplaceCharAbsent(s: string, c: char, rep: string)
    requires c !in s
    ensures Replace(s, [c], rep) == s
    decreases |s|
  {
    if s != [] {
      assert s[0] in s;
      assert s[..1] != [c];
      ReplaceCharAbsent(s[1..], c, rep);
      assert s == [s[0]] + s[1..];
    }
  }

  /** Deleting one character keeps every other character's count. */
  lemma {:induction false} DeleteCharCount(s: string, c: char, d: char)
    ensures Count(Replace(s, [c], ""), d) == if d == c then 0 else Count(s, d)
    decreases |s|
  {
    if s != [] {
      var rest := Replace(s[1..], [c], "");
      DeleteCharCount(s[1..], c, d);
      if s[0] == c {
        assert Replace(s, [c], "") == rest by {
          assert s[..1] == [c];
          assert Replace(s, [c], "") == "" + rest;
        }
      } else {
        assert Replace(s, [c], "") == [s[0]] + rest by {
          assert s[..1] != [c];
        }
        CountConcat([s[0]], rest, d);
      }
    }
  }
}
