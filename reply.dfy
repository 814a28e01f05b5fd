/** `extract_message`: the clean-up applied to a language-model reply before
    it is saved as an ABC file. The two regular expressions are written out
    as the left-to-right scans the regex engine performs:
    - ```` ```abc(.*?)``` ```` with DOTALL: the leftmost opening fence that has
      a closing fence after it, closed by the first such closing fence;
    - `"([^"]*)"`: a quote and the next quote after it, repeatedly, the
      commas between them deleted (`,+` replaced by nothing). */
module Reply {
  import opened Text

  const Opening: string := "```abc"
  const Closing: string := "```"

  /** `pat` occurs in `s` at position `j`. */
  predicate OccursAt(s: string, pat: string, j: int)
  {
    0 <= j && j + |pat| <= |s| && s[j..j + |pat|] == pat
  }

  /** First position at or after `i` where `pat` occurs in `s`. */
  function FindFrom(s: string, pat: string, i: nat): (r: Option<nat>)
    requires pat != []
    ensures r.Some? ==> i <= r.value && OccursAt(s, pat, r.value)
    ensures r.Some? ==> forall j :: i <= j < r.value ==> !OccursAt(s, pat, j)
    ensures r.None? ==> forall j :: i <= j ==> !OccursAt(s, pat, j)
    decreases |s| - i
  {
    if i + |pat| > |s| then None
    else if s[i..i + |pat|] == pat then Some(i)
    else FindFrom(s, pat, i + 1)
  }

  /** First position at or after `i` holding the character `c`. */
  function FindChar(s: string, c: char, i: nat): (r: Option<nat>)
    ensures r.Some? ==> i <= r.value < |s| && s[r.value] == c
    ensures r.Some? ==> forall j :: i <= j < r.value ==> s[j] != c
    ensures r.None? ==> forall j :: i <= j < |s| ==> s[j] != c
    decreases |s| - i
  {
    if i >= |s| then None
    else if s[i] == c then Some(i)
    else FindChar(s, c, i + 1)
  }

  /** `re.search` for the fence: the bounds `(b, e)` of the captured text
      `s[b..e]`, searching from start position `i`. */
  function SearchFence(s: string, i: nat): (r: Option<(nat, nat)>)
    ensures r.Some? ==> var (b, e) := r.value;
      i + 6 <= b <= e && OccursAt(s, Opening, b - 6) && OccursAt(s, Closing, e)
      && (forall j :: b <= j < e ==> !OccursAt(s, Closing, j))
      && (forall j :: i <= j < b - 6 ==> !OccursAt(s, Opening, j) || FindFrom(s, Closing, j + 6).None?)
    ensures r.None? ==> forall j :: i <= j ==>
      !OccursAt(s, Opening, j) || FindFrom(s, Closing, j + 6).None?
    decreases |s| - i
  {
    if i + 6 > |s| then None
    else if OccursAt(s, Opening, i) && FindFrom(s, Closing, i + 6).Some? then
      Some((i + 6, FindFrom(s, Closing, i + 6).value))
    else SearchFence(s, i + 1)
  }

  /** Some opening fence has a closing fence after it. */
  ghost predicate Fenced(s: string)
  {
    exists j, m :: OccursAt(s, Opening, j) && j + 6 <= m && OccursAt(s, Closing, m)
  }

  /** The search fails exactly when no opening fence is followed by a
      closing fence; a match lies inside the text, after an opening fence. */
  lemma SearchFenceNone(s: string)
    ensures match SearchFence(s, 0)
      case None => !Fenced(s)
      case Some((b, e)) => Fenced(s) && 6 <= b <= e <= |s|
  {
    match SearchFence(s, 0)
    case None =>
    case Some((b, e)) =>
      assert OccursAt(s, Opening, b - 6) && b - 6 + 6 <= e && OccursAt(s, Closing, e);
  }

  /** The text the rest of the clean-up starts from: the fenced text when a
      fence matches, the whole reply otherwise. The reply comes back whole
      exactly when it holds no opening fence followed by a closing one. */
  function FenceBody(s: string): (r: string)
    ensures |r| <= |s|
    ensures r == s <==> !Fenced(s)
  {
    SearchFenceNone(s);
    match SearchFence(s, 0)
    case None => s
    case Some((b, e)) =>
      assert |s[b..e]| < |s|;
      s[b..e]
  }

  /** Python's `str.isspace()` for one character: the ASCII white space, the
      information separators 0x1C..0x1F, and the Unicode space characters. */
  predicate IsSpace(c: char)
  {
    var n := c as int;
    n == 0x20 || 0x09 <= n <= 0x0D || 0x1C <= n <= 0x1F || n == 0x85 || n == 0xA0
    || n == 0x1680 || 0x2000 <= n <= 0x200A || n == 0x2028 || n == 0x2029
    || n == 0x202F || n == 0x205F || n == 0x3000
  }

  /** `line.strip() == ""`. */
  predicate Blank(line: string)
  {
    forall k :: 0 <= k < |line| ==> IsSpace(line[k])
  }

  /** Python's `s.split("\n")`: always at least one piece, none holding a
      newline. */
  function Split(s: string): (lines: seq<string>)
    ensures |lines| >= 1
    ensures forall k :: 0 <= k < |lines| ==> '\n' !in lines[k]
    decreases |s|
  {
    if s == [] then [""]
    else
      var rest := Split(s[1..]);
      if s[0] == '\n' then [""] + rest
      else [[s[0]] + rest[0]] + rest[1..]
  }

  /** Python's `"\n".join(lines)`. */
  function Join(lines: seq<string>): string
    decreases |lines|
  {
    if lines == [] then ""
    else if |lines| == 1 then lines[0]
    else lines[0] + "\n" + Join(lines[1..])
  }

  /** The list comprehension: the lines that are not blank, in order. */
  function KeepNonBlank(lines: seq<string>): (kept: seq<string>)
    ensures |kept| <= |lines|
    ensures forall k :: 0 <= k < |kept| ==> !Blank(kept[k]) && kept[k] in lines
    ensures forall k :: 0 <= k < |lines| && !Blank(lines[k]) ==> lines[k] in kept
  {
    if lines == [] then []
    else
      assert forall k :: 1 <= k < |lines| ==> lines[k] == lines[1..][k - 1];
      if Blank(lines[0]) then KeepNonBlank(lines[1..])
      else [lines[0]] + KeepNonBlank(lines[1..])
  }

  /** The filter works line by line: it distributes over concatenation, so
      the kept lines keep their order. */
  lemma {:induction false} KeepNonBlankConcat(a: seq<string>, b: seq<string>)
    ensures KeepNonBlank(a + b) == KeepNonBlank(a) + KeepNonBlank(b)
    decreases |a|
  {
    if a == [] {
      assert a + b == b;
    } else {
      assert (a + b)[0] == a[0];
      assert (a + b)[1..] == a[1..] + b;
      KeepNonBlankConcat(a[1..], b);
    }
  }

  /** A single line is dropped exactly when it is blank. */
  lemma KeepNonBlankSingle(x: string)
    ensures KeepNonBlank([x]) == if Blank(x) then [] else [x]
  {
    assert [x][1..] == [];
  }

  /** Line 77 of the source: drop every whitespace-only line. The result is
      empty, or none of its lines is blank. */
  function DropBlankLines(s: string): (r: string)
    ensures r == "" || forall k :: 0 <= k < |Split(r)| ==> !Blank(Split(r)[k])
  {
    var kept := KeepNonBlank(Split(s));
    if kept == [] then ""
    else
      SplitJoin(kept);
      Join(kept)
  }

  /** Splitting and joining again gives back the text. */
  lemma {:induction false} JoinSplit(s: string)
    ensures Join(Split(s)) == s
    decreases |s|
  {
    if s != [] {
      var rest := Split(s[1..]);
      JoinSplit(s[1..]);
      if s[0] == '\n' {
        assert Split(s) == [""] + rest;
        assert ([""] + rest)[1..] == rest;
      } else {
        var lines := [[s[0]] + rest[0]] + rest[1..];
        assert Split(s) == lines;
        if |rest| == 1 {
          assert Join(rest) == rest[0];
        } else {
          assert lines[1..] == rest[1..];
          assert Join(rest) == rest[0] + "\n" + Join(rest[1..]);
        }
      }
    }
  }

  /** A newline-free piece followed by a newline is split off as one line. */
  lemma {:induction false} SplitLine(a: string, b: string)
    requires '\n' !in a
    ensures Split(a + "\n" + b) == [a] + Split(b)
    decreases |a|
  {
    if a == [] {
      assert a + "\n" + b == "\n" + b;
      assert ("\n" + b)[1..] == b;
    } else {
      assert (a + "\n" + b)[1..] == a[1..] + "\n" + b;
      assert a[0] in a;
      SplitLine(a[1..], b);
      assert [a[0]] + a[1..] == a;
    }
  }

  /** A newline-free text is a single line. */
  lemma {:induction false} SplitSingle(a: string)
    requires '\n' !in a
    ensures Split(a) == [a]
    decreases |a|
  {
    if a != [] {
      assert a[0] in a;
      SplitSingle(a[1..]);
      assert [a[0]] + a[1..] == a;
    }
  }

  /** Joining newline-free lines and splitting again gives back the lines. */
  lemma {:induction false} SplitJoin(lines: seq<string>)
    requires lines != []
    requires forall k :: 0 <= k < |lines| ==> '\n' !in lines[k]
    ensures Split(Join(lines)) == lines
    decreases |lines|
  {
    if |lines| == 1 {
      SplitSingle(lines[0]);
    } else {
      SplitJoin(lines[1..]);
      SplitLine(lines[0], Join(lines[1..]));
      assert [lines[0]] + lines[1..] == lines;
    }
  }

  /** After dropping, the text's lines are exactly the non-blank lines of the
      input in their original order; when every line was blank the text is
      empty. */
  lemma DropBlankLinesLines(s: string)
    ensures var kept := KeepNonBlank(Split(s));
      (kept == [] ==> DropBlankLines(s) == "")
      && (kept != [] ==> Split(DropBlankLines(s)) == kept)
  {
    var kept := KeepNonBlank(Split(s));
    if kept != [] {
      SplitJoin(kept);
    }
  }

  /** A text without blank lines passes through unchanged. */
  lemma {:induction false} KeepAll(lines: seq<string>)
    requires forall k :: 0 <= k < |lines| ==> !Blank(lines[k])
    ensures KeepNonBlank(lines) == lines
    decreases |lines|
  {
    if lines != [] {
      KeepAll(lines[1..]);
      assert [lines[0]] + lines[1..] == lines;
    }
  }

  lemma DropBlankLinesKeeps(s: string)
    requires forall k :: 0 <= k < |Split(s)| ==> !Blank(Split(s)[k])
    ensures DropBlankLines(s) == s
  {
    KeepAll(Split(s));
    JoinSplit(s);
  }

  /** `s[k]` lies strictly between a quote and its partner: quotes pair up
      first with second, third with fourth, and so on, so an odd number of
      quotes lies before it and another quote after it. */
  predicate Quoted(s: string, k: nat)
    requires k < |s|
  {
    OddCount(s[..k], '"') && '"' in s[k + 1..]
  }

  /** Position by position from `k` on: every character of `s` except the
      commas that lie between a quote and its partner. */
  function KeptFrom(s: string, k: nat): string
    requires k <= |s|
    decreases |s| - k
  {
    if k == |s| then ""
    else (if s[k] == ',' && Quoted(s, k) then "" else [s[k]]) + KeptFrom(s, k + 1)
  }

  /** The same filter as one left-to-right scan over `s` that carries the
      quote parity `odd` of the text before it. */
  function ScanQuoted(s: string, odd: bool): string
    decreases |s|
  {
    if s == [] then ""
    else
      var head := if s[0] == ',' && odd && '"' in s[1..] then "" else [s[0]];
      head + ScanQuoted(s[1..], odd != (s[0] == '"'))
  }

  /** `re.sub(r'"([^"]*)"', ...)`: each quote pair found left to right keeps
      its quotes and loses the commas between them; a last quote without a
      partner is left as it is. The result drops exactly the commas that lie
      between a quote and its partner, and keeps every other character in
      order. */
  function StripQuotedCommas(s: string): (r: string)
    ensures r == KeptFrom(s, 0)
    decreases |s|
  {
    KeptScan(s, 0);
    assert s[..0] == [] && s[0..] == s;
    match FindChar(s, '"', 0)
    case None =>
      CharFreeRange(s, '"', 0, |s|);
      ScanQuoteFree(s, false);
      s
    case Some(i) =>
      match FindChar(s, '"', i + 1)
      case None =>
        CharFreeRange(s, '"', 0, i);
        CharFreeRange(s, '"', i + 1, |s|);
        ScanOneQuote(s, i);
        s
      case Some(j) =>
        QuotePair(s, i, j);
        ScanPair(s[..i], s[i + 1..j], s[j + 1..]);
        KeptScan(s[j + 1..], 0);
        assert s[j + 1..][..0] == [] && s[j + 1..][0..] == s[j + 1..];
        s[..i] + "\"" + Replace(s[i + 1..j], ",", "") + "\"" + StripQuotedCommas(s[j + 1..])
  }

  /** The quote parity of a prefix, one character longer. */
  lemma OddCountStep(s: string, k: nat)
    requires k < |s|
    ensures OddCount(s[..k + 1], '"') == (OddCount(s[..k], '"') != (s[k] == '"'))
  {
    assert s[..k + 1] == s[..k] + [s[k]];
    OddCountConcat(s[..k], [s[k]], '"');
    assert [s[k]][1..] == [];
  }

  /** The positional filter from `k` on is the scan of the suffix, started
      with the parity of the prefix. */
  lemma {:induction false} KeptScan(s: string, k: nat)
    requires k <= |s|
    ensures KeptFrom(s, k) == ScanQuoted(s[k..], OddCount(s[..k], '"'))
    decreases |s| - k
  {
    if k < |s| {
      var t := s[k..];
      assert t[0] == s[k] && t[1..] == s[k + 1..];
      OddCountStep(s, k);
      KeptScan(s, k + 1);
    }
  }

  /** Quote-free text is scanned unchanged: outside a pair nothing goes, and
      inside one no partner follows. */
  lemma {:induction false} ScanQuoteFree(t: string, odd: bool)
    requires '"' !in t
    ensures ScanQuoted(t, odd) == t
    decreases |t|
  {
    if t != [] {
      QuoteFreeSuffix(t, 1);
      ScanQuoteFree(t[1..], odd);
      assert t == [t[0]] + t[1..];
    }
  }

  /** A quote-free stretch outside any pair is kept as it is. */
  lemma {:induction false} ScanOutside(pre: string, rest: string)
    requires '"' !in pre
    ensures ScanQuoted(pre + rest, false) == pre + ScanQuoted(rest, false)
    decreases |pre|
  {
    if pre == [] {
      assert pre + rest == rest;
    } else {
      assert pre[0] in pre;
      assert (pre + rest)[0] == pre[0];
      assert (pre + rest)[1..] == pre[1..] + rest;
      QuoteFreeSuffix(pre, 1);
      ScanOutside(pre[1..], rest);
    }
  }

  /** Inside a pair, up to its closing quote, exactly the commas go. */
  lemma {:induction false} ScanInside(mid: string, rest: string)
    requires '"' !in mid
    ensures ScanQuoted(mid + "\"" + rest, true) == Replace(mid, ",", "") + "\"" + ScanQuoted(rest, false)
    decreases |mid|
  {
    if mid == [] {
      ScanClosing(rest);
    } else {
      QuoteFreeSuffix(mid, 1);
      ScanInside(mid[1..], rest);
      ScanInsideStep(mid, rest);
    }
  }

  /** The closing quote of a pair is kept and ends the inside. */
  lemma ScanClosing(rest: string)
    ensures ScanQuoted([] + "\"" + rest, true) == Replace([], ",", "") + "\"" + ScanQuoted(rest, false)
  {
    var s := [] + "\"" + rest;
    assert s == "\"" + rest;
    assert s[0] == '"' && s[1..] == rest;
  }

  /** One character further inside a pair. */
  lemma ScanInsideStep(mid: string, rest: string)
    requires '"' !in mid && mid != []
    requires ScanQuoted(mid[1..] + "\"" + rest, true)
      == Replace(mid[1..], ",", "") + "\"" + ScanQuoted(rest, false)
    ensures ScanQuoted(mid + "\"" + rest, true) == Replace(mid, ",", "") + "\"" + ScanQuoted(rest, false)
  {
    ScanInsideHead(mid, rest);
    ReplaceHead(mid);
    Regroup4(if mid[0] == ',' then "" else [mid[0]], Replace(mid[1..], ",", ""), "\"", ScanQuoted(rest, false));
  }

  lemma Regroup4(a: string, b: string, c: string, d: string)
    ensures a + (b + c + d) == a + b + c + d
  {
  }

  /** Inside a pair, the first character goes exactly when it is a comma. */
  lemma ScanInsideHead(mid: string, rest: string)
    requires '"' !in mid && mid != []
    ensures ScanQuoted(mid + "\"" + rest, true)
      == (if mid[0] == ',' then "" else [mid[0]]) + ScanQuoted(mid[1..] + "\"" + rest, true)
  {
    var s := mid + "\"" + rest;
    assert mid[0] in mid;
    assert s[0] == mid[0];
    assert s[1..] == mid[1..] + "\"" + rest;
    assert s[1..][|mid| - 1] == '"';
  }

  /** Deleting commas, one character at a time. */
  lemma ReplaceHead(mid: string)
    requires mid != []
    ensures Replace(mid, ",", "") == (if mid[0] == ',' then "" else [mid[0]]) + Replace(mid[1..], ",", "")
  {
    assert mid[..1] == [mid[0]];
  }


  /** A single quote, at `i`: nothing is dropped. */
  lemma ScanOneQuote(s: string, i: nat)
    requires i < |s| && s[i] == '"' && '"' !in s[..i] && '"' !in s[i + 1..]
    ensures ScanQuoted(s, false) == s
  {
    var pre, post := s[..i], s[i + 1..];
    SplitOne(s, i);
    assert [s[i]] == "\"";
    ScanOutside(pre, "\"" + post);
    ScanUnpaired(post);
  }

  /** A text cut at one position. */
  lemma SplitOne(s: string, i: nat)
    requires i < |s|
    ensures s == s[..i] + ([s[i]] + s[i + 1..])
  {
    assert s[i..] == [s[i]] + s[i + 1..];
    assert s == s[..i] + s[i..];
  }

  /** A last quote with no partner after it: the rest is kept. */
  lemma ScanUnpaired(post: string)
    requires '"' !in post
    ensures ScanQuoted("\"" + post, false) == "\"" + post
  {
    var t := "\"" + post;
    assert t[0] == '"' && t[1..] == post;
    ScanQuoteFree(post, true);
  }

  /** A first quote pair: the prefix is kept, the commas inside go, and the
      scan goes on behind the pair with even parity. */
  lemma ScanPair(pre: string, mid: string, post: string)
    requires '"' !in pre && '"' !in mid
    ensures ScanQuoted(pre + "\"" + mid + "\"" + post, false)
      == pre + "\"" + Replace(mid, ",", "") + "\"" + ScanQuoted(post, false)
  {
    Regroup(pre, "\"", mid, "\"", post);
    ScanOutside(pre, "\"" + (mid + "\"" + post));
    ScanOpening(mid, post);
    Regroup(pre, "\"", Replace(mid, ",", ""), "\"", ScanQuoted(post, false));
  }

  /** An opening quote switches to the inside of a pair. */
  lemma ScanOpening(mid: string, post: string)
    requires '"' !in mid
    ensures ScanQuoted("\"" + (mid + "\"" + post), false)
      == "\"" + (Replace(mid, ",", "") + "\"" + ScanQuoted(post, false))
  {
    var t := "\"" + (mid + "\"" + post);
    assert t[0] == '"' && t[1..] == mid + "\"" + post;
    ScanInside(mid, post);
  }

  lemma Regroup(a: string, b: string, c: string, d: string, e: string)
    ensures a + b + c + d + e == a + (b + (c + d + e))
  {
  }

  /** The quote pairs: a quote-free prefix, a quote, a quote-free inside, a
      quote, and the rest. */
  lemma QuotePair(s: string, i: nat, j: nat)
    requires FindChar(s, '"', 0) == Some(i) && FindChar(s, '"', i + 1) == Some(j)
    ensures i < j < |s|
    ensures '"' !in s[..i] && '"' !in s[i + 1..j]
    ensures s == s[..i] + "\"" + s[i + 1..j] + "\"" + s[j + 1..]
  {
    CharFreeRange(s, '"', 0, i);
    CharFreeRange(s, '"', i + 1, j);
    SplitAround(s, i, j);
    assert [s[i]] == "\"" && [s[j]] == "\"";
  }

  /** A text cut at two positions. */
  lemma SplitAround(s: string, i: nat, j: nat)
    requires i < j < |s|
    ensures s == s[..i] + [s[i]] + s[i + 1..j] + [s[j]] + s[j + 1..]
  {
    assert s[j..] == [s[j]] + s[j + 1..];
    assert s[i + 1..] == s[i + 1..j] + s[j..];
    assert s[i..] == [s[i]] + s[i + 1..];
    assert s == s[..i] + s[i..];
  }

  /** A range of positions without `c` is a slice without `c`. */
  lemma CharFreeRange(s: string, c: char, a: nat, b: nat)
    requires a <= b <= |s| && forall m :: a <= m < b ==> s[m] != c
    ensures c !in s[a..b]
  {
    var t := s[a..b];
    forall m | 0 <= m < |t| ensures t[m] != c {
      assert t[m] == s[a + m];
    }
  }

  /** Only commas are removed: deleting every comma from input and output
      gives the same text. */
  lemma {:induction false} StripOnlyCommas(s: string)
    ensures Replace(StripQuotedCommas(s), ",", "") == Replace(s, ",", "")
    decreases |s|
  {
    match FindChar(s, '"', 0)
    case None =>
    case Some(i) =>
      match FindChar(s, '"', i + 1)
      case None =>
      case Some(j) =>
        QuotePair(s, i, j);
        StripUnfold(s, i, j);
        var mid := s[i + 1..j];
        StripOnlyCommas(s[j + 1..]);
        ReplaceCharGone(mid, ',', "");
        ReplaceCharAbsent(Replace(mid, ",", ""), ',', "");
        DeletePair(s[..i], mid, Replace(mid, ",", ""), s[j + 1..], StripQuotedCommas(s[j + 1..]));
  }

  /** Quotes are never added or removed. */
  lemma {:induction false} StripKeepsQuotes(s: string)
    ensures Count(StripQuotedCommas(s), '"') == Count(s, '"')
    decreases |s|
  {
    match FindChar(s, '"', 0)
    case None =>
    case Some(i) =>
      match FindChar(s, '"', i + 1)
      case None =>
      case Some(j) =>
        QuotePair(s, i, j);
        StripUnfold(s, i, j);
        var mid := s[i + 1..j];
        StripKeepsQuotes(s[j + 1..]);
        DeleteCharCount(mid, ',', '"');
        CountPair(s[..i], mid, Replace(mid, ",", ""), s[j + 1..], StripQuotedCommas(s[j + 1..]), '"');
  }

  /** The quote step at the first pair. */
  lemma StripUnfold(s: string, i: nat, j: nat)
    requires FindChar(s, '"', 0) == Some(i) && FindChar(s, '"', i + 1) == Some(j)
    ensures i < j < |s|
    ensures StripQuotedCommas(s)
      == s[..i] + "\"" + Replace(s[i + 1..j], ",", "") + "\"" + StripQuotedCommas(s[j + 1..])
  {
    QuotePair(s, i, j);
  }

  /** Counting across a quote pair: parts with the same counts give wholes
      with the same count. */
  lemma CountPair(pre: string, mid: string, mid': string, post: string, post': string, c: char)
    requires Count(mid', c) == Count(mid, c) && Count(post', c) == Count(post, c)
    ensures Count(pre + "\"" + mid' + "\"" + post', c) == Count(pre + "\"" + mid + "\"" + post, c)
  {
    CountConcat(pre + "\"" + mid' + "\"", post', c);
    CountConcat(pre + "\"" + mid', "\"", c);
    CountConcat(pre + "\"", mid', c);
    CountConcat(pre + "\"" + mid + "\"", post, c);
    CountConcat(pre + "\"" + mid, "\"", c);
    CountConcat(pre + "\"", mid, c);
  }

  /** Deleting commas across a quote pair: parts that agree without their
      commas give wholes that agree without their commas. */
  lemma DeletePair(pre: string, mid: string, mid': string, post: string, post': string)
    requires Replace(mid', ",", "") == Replace(mid, ",", "")
    requires Replace(post', ",", "") == Replace(post, ",", "")
    ensures Replace(pre + "\"" + mid' + "\"" + post', ",", "") == Replace(pre + "\"" + mid + "\"" + post, ",", "")
  {
    ReplaceCharConcat(pre + "\"" + mid' + "\"", post', ',', "");
    ReplaceCharConcat(pre + "\"" + mid', "\"", ',', "");
    ReplaceCharConcat(pre + "\"", mid', ',', "");
    ReplaceCharConcat(pre + "\"" + mid + "\"", post, ',', "");
    ReplaceCharConcat(pre + "\"" + mid, "\"", ',', "");
    ReplaceCharConcat(pre + "\"", mid, ',', "");
  }

  /** Every comma has an even number of quotes before it, or no quote after
      it: no comma sits between a quote and its partner. */
  predicate NoQuotedComma(r: string)
  {
    forall k :: 0 <= k < |r| && r[k] == ',' ==> !OddCount(r[..k], '"') || '"' !in r[k..]
  }

  /** Text with at most one quote has no quoted comma. */
  lemma UnpairedNoQuotedComma(s: string, i: nat)
    requires i <= |s| && '"' !in s[..i] && (i < |s| ==> s[i] == '"' && '"' !in s[i + 1..])
    ensures NoQuotedComma(s)
  {
    forall k | 0 <= k < |s| && s[k] == ',' ensures !OddCount(s[..k], '"') || '"' !in s[k..] {
      if k < i {
        assert s[..k] == s[..i][..k];
        QuoteFreePrefix(s[..i], k);
        OddCountAbsent(s[..k], '"');
      } else {
        assert s[k..] == s[i + 1..][k - i - 1..];
        QuoteFreeSuffix(s[i + 1..], k - i - 1);
      }
    }
  }

  /** A prefix of quote-free text is quote-free. */
  lemma QuoteFreePrefix(t: string, k: nat)
    requires k <= |t| && '"' !in t
    ensures '"' !in t[..k]
  {
    assert forall m :: 0 <= m < k ==> t[..k][m] == t[m];
  }

  /** A suffix of quote-free text is quote-free. */
  lemma QuoteFreeSuffix(t: string, k: nat)
    requires k <= |t| && '"' !in t
    ensures '"' !in t[k..]
  {
    assert forall m :: 0 <= m < |t| - k ==> t[k..][m] == t[k + m];
  }

  /** A comma-free quote pair in front keeps the property. */
  lemma PairedNoQuotedComma(pre: string, mid: string, rest: string)
    requires '"' !in pre && '"' !in mid && ',' !in mid && NoQuotedComma(rest)
    ensures NoQuotedComma(pre + "\"" + mid + "\"" + rest)
  {
    var head := pre + "\"" + mid + "\"";
    var r := head + rest;
    assert r == pre + "\"" + mid + "\"" + rest;
    PairQuotes(pre, mid);
    forall k | 0 <= k < |r| && r[k] == ',' ensures !OddCount(r[..k], '"') || '"' !in r[k..] {
      if k < |pre| {
        PairedPrefixComma(pre, mid, rest, k);
      } else if k < |head| {
        PairedInsideComma(pre, mid, rest, k);
      } else {
        var k' := k - |head|;
        assert rest[k'] == r[k];
        EvenHeadComma(head, rest, k');
      }
    }
  }

  lemma PairedPrefixComma(pre: string, mid: string, rest: string, k: nat)
    requires '"' !in pre && k < |pre|
    ensures var r := pre + "\"" + mid + "\"" + rest; !OddCount(r[..k], '"')
  {
    var r := pre + "\"" + mid + "\"" + rest;
    assert r[..k] == pre[..k];
    QuoteFreePrefix(pre, k);
    OddCountAbsent(pre[..k], '"');
  }

  lemma PairedInsideComma(pre: string, mid: string, rest: string, k: nat)
    requires ',' !in mid && |pre| <= k < |pre| + |mid| + 2
    ensures var r := pre + "\"" + mid + "\"" + rest; r[k] != ','
  {
    var r := pre + "\"" + mid + "\"" + rest;
    if |pre| < k < |pre| + |mid| + 1 {
      assert r[k] == mid[k - |pre| - 1];
      assert mid[k - |pre| - 1] in mid;
    }
  }

  /** A quote pair around quote-free text holds an even number of quotes. */
  lemma PairQuotes(pre: string, mid: string)
    requires '"' !in pre && '"' !in mid
    ensures !OddCount(pre + "\"" + mid + "\"", '"')
  {
    OddCountConcat(pre + "\"" + mid, "\"", '"');
    OddCountConcat(pre + "\"", mid, '"');
    OddCountConcat(pre, "\"", '"');
    OddCountAbsent(pre, '"');
    OddCountAbsent(mid, '"');
  }

  /** Behind a head with an even number of quotes, a comma of `rest` that is
      not quoted within `rest` is not quoted in the whole text. */
  lemma EvenHeadComma(head: string, rest: string, k: nat)
    requires !OddCount(head, '"') && k < |rest|
    requires !OddCount(rest[..k], '"') || '"' !in rest[k..]
    ensures var r := head + rest;
      !OddCount(r[..|head| + k], '"') || '"' !in r[|head| + k..]
  {
    assert (head + rest)[..|head| + k] == head + rest[..k];
    OddCountConcat(head, rest[..k], '"');
    assert (head + rest)[|head| + k..] == rest[k..];
  }

  /** No comma is left inside a quote pair. */
  lemma {:induction false} StripLeavesNoQuotedComma(s: string)
    ensures NoQuotedComma(StripQuotedCommas(s))
    decreases |s|
  {
    match FindChar(s, '"', 0)
    case None =>
      UnpairedNoQuotedComma(s, |s|);
    case Some(i) =>
      match FindChar(s, '"', i + 1)
      case None =>
        UnpairedNoQuotedComma(s, i);
      case Some(j) =>
        QuotePair(s, i, j);
        var mid := s[i + 1..j];
        ReplaceCharGone(mid, ',', "");
        ReplaceKeepsAbsent(mid, ",", "", '"');
        StripLeavesNoQuotedComma(s[j + 1..]);
        PairedNoQuotedComma(s[..i], Replace(mid, ",", ""), StripQuotedCommas(s[j + 1..]));
  }

  /** Python's `extract_message`. Whatever the reply, no comma is left
      between a quote and its partner. */
  function ExtractMessage(message: string): (r: string)
    ensures NoQuotedComma(r)
  {
    StripLeavesNoQuotedComma(DropBlankLines(FenceBody(message)));
    StripQuotedCommas(DropBlankLines(FenceBody(message)))
  }

  /** Skipping positions where no opening fence starts. */
  lemma {:induction false} SearchFenceSkip(s: string, i: nat, n: nat)
    requires i <= n <= |s| && forall k :: i <= k < n ==> !OccursAt(s, Opening, k)
    ensures SearchFence(s, i) == SearchFence(s, n)
    decreases n - i
  {
    if i < n {
      SearchFenceSkip(s, i + 1, n);
    }
  }

  /** Skipping positions where no closing fence starts. */
  lemma {:induction false} FindFromSkip(s: string, i: nat, n: nat)
    requires i <= n <= |s| && forall k :: i <= k < n ==> !OccursAt(s, Closing, k)
    ensures FindFrom(s, Closing, i) == FindFrom(s, Closing, n)
    decreases n - i
  {
    if i < n {
      FindFromSkip(s, i + 1, n);
    }
  }

  /** A reply `pre`, opening fence, `body`, closing fence, `post` is cut down
      to `body` when no opening fence starts inside `pre` and no closing
      fence starts inside `body`: the one written is then the leftmost
      opening, and the one after `body` its nearest closing. */
  lemma FenceBodyFenced(pre: string, body: string, post: string)
    requires var s := pre + Opening + body + Closing + post;
      (forall j :: 0 <= j < |pre| ==> !OccursAt(s, Opening, j))
      && (forall j :: |pre| + 6 <= j < |pre| + 6 + |body| ==> !OccursAt(s, Closing, j))
    ensures FenceBody(pre + Opening + body + Closing + post) == body
  {
    var s := pre + Opening + body + Closing + post;
    var b := |pre| + 6;
    var e := b + |body|;
    assert s[|pre|..b] == Opening;
    assert s[e..e + 3] == Closing;
    assert s[b..e] == body;
    SearchFenceSkip(s, 0, |pre|);
    FindFromSkip(s, b, e);
  }

  /** Quote-free text is left alone by the quote step. */
  lemma StripNoQuotes(s: string)
    requires '"' !in s
    ensures StripQuotedCommas(s) == s
  {

  }

  /** A reply with no fence pair, no quote and no blank line comes back
      unchanged. */
  lemma ExtractPlain(s: string)
    requires !Fenced(s) && '"' !in s
    requires forall k :: 0 <= k < |Split(s)| ==> !Blank(Split(s)[k])
    ensures ExtractMessage(s) == s
  {
    DropBlankLinesKeeps(s);
    StripNoQuotes(s);
  }

  /** A fenced reply, under the condition of `FenceBodyFenced`: only the
      fenced text is kept, then cleaned. */
  lemma ExtractFenced(pre: string, body: string, post: string)
    requires var s := pre + Opening + body + Closing + post;
      (forall j :: 0 <= j < |pre| ==> !OccursAt(s, Opening, j))
      && (forall j :: |pre| + 6 <= j < |pre| + 6 + |body| ==> !OccursAt(s, Closing, j))
    ensures ExtractMessage(pre + Opening + body + Closing + post)
      == StripQuotedCommas(DropBlankLines(body))
  {
    FenceBodyFenced(pre, body, post);
  }
}
