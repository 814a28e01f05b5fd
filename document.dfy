/** `melody_to_abc`: an ABC body becomes a full ABC document. Two literal
    replacements rewrite length tokens (`1` to `8`, then `/2` to `2`), a
    header of X, T, M, L and K fields is put in front, the body goes between
    the repeat bars `|:` and `:|`, and every space character is deleted. */
module Document {
  import opened Text

  /** The header block, one field per line, in the order X, T, M, L, K. */
  function Header(title: string, meter: string, defaultLength: string, key: string): string
  {
    "X:1\nT:" + title + "\nM:" + meter + "\nL:" + defaultLength + "\nK:" + key + "\n"
  }

  /** The two length rewrites, in the source's order. */
  function RewriteLengths(melody: string): string
  {
    Replace(Replace(melody, "1", "8"), "/2", "2")
  }

  /** After the rewrites the body holds no `1`: the first replacement removes
      them all and neither later step brings one back. */
  lemma RewriteRemovesOnes(melody: string)
    ensures '1' !in RewriteLengths(melody)
  {
    ReplaceCharGone(melody, '1', "8");
    ReplaceKeepsAbsent(Replace(melody, "1", "8"), "/2", "2", '1');
  }

  /** Python's `melody_to_abc`. The document holds no space and closes with
      the repeat bar `:|`; every `1` in it comes from the header, since the
      rewrites leave none in the body. */
  function MelodyToAbc(melody: string, title: string, meter: string, defaultLength: string, key: string): (r: string)
    ensures ' ' !in r
    ensures |r| >= 2 && r[|r| - 2..] == ":|"
    ensures Count(r, '1') == Count(Header(title, meter, defaultLength, key), '1')
  {
    var h := Header(title, meter, defaultLength, key);
    var m := RewriteLengths(melody);
    var doc := h + "|: " + m + ":|";
    ReplaceCharGone(doc, ' ', "");
    ReplaceCharConcat(h + "|: " + m, ":|", ' ', "");
    ReplaceCharAbsent(":|", ' ', "");
    DeleteCharCount(doc, ' ', '1');
    RewriteRemovesOnes(melody);
    CountConcat(h + "|: " + m, ":|", '1');
    CountConcat(h + "|: ", m, '1');
    CountConcat(h, "|: ", '1');
    Replace(doc, " ", "")
  }

  /** The document is the space-free header, then `|:`, then the space-free
      rewritten body, then `:|`; it holds no space at all and its body holds
      no `1`. */
  lemma DocumentShape(melody: string, title: string, meter: string, defaultLength: string, key: string)
    ensures var r := MelodyToAbc(melody, title, meter, defaultLength, key);
      var body := Replace(RewriteLengths(melody), " ", "");
      r == Replace(Header(title, meter, defaultLength, key), " ", "") + "|:" + body + ":|"
      && ' ' !in r && '1' !in body
      && |r| >= 4 && r[|r| - 2..] == ":|"
  {
    var h := Header(title, meter, defaultLength, key);
    var m := RewriteLengths(melody);
    ReplaceCharConcat(h + "|: " + m, ":|", ' ', "");
    ReplaceCharConcat(h + "|: ", m, ' ', "");
    ReplaceCharConcat(h, "|: ", ' ', "");
    ReplaceCharConcat("|:", " ", ' ', "");
    assert "|:" + " " == "|: ";
    ReplaceCharAbsent("|:", ' ', "");
    ReplaceCharAbsent(":|", ' ', "");
    assert Replace(" ", " ", "") == "";
    ReplaceCharGone(h + "|: " + m + ":|", ' ', "");
    RewriteRemovesOnes(melody);
    ReplaceKeepsAbsent(m, " ", "", '1');
  }

  /** An empty melody still gives a document with a header and both repeat
      bars, and nothing between them. */
  lemma EmptyMelodyDocument(title: string, meter: string, defaultLength: string, key: string)
    ensures MelodyToAbc("", title, meter, defaultLength, key)
      == Replace(Header(title, meter, defaultLength, key), " ", "") + "|::|"
  {
    DocumentShape("", title, meter, defaultLength, key);
    assert Replace(Replace("", "1", "8"), "/2", "2") == "";
    assert Replace("", " ", "") == "";
  }

  /** A note letter: the only characters the example bodies use besides
      length digits, `/` and spaces. */
  predicate IsLetter(c: char)
  {
    'a' <= c <= 'g' || 'A' <= c <= 'G'
  }

  /** A two-note body `x1 y/2 `: the quarter-note `1` becomes `8`, the
      eighth-note `/2` becomes `2`, and the separating spaces go. */
  lemma DocumentExample(x: char, y: char, title: string, meter: string, defaultLength: string, key: string)
    requires IsLetter(x) && IsLetter(y)
    ensures MelodyToAbc([x, '1', ' ', y, '/', '2', ' '], title, meter, defaultLength, key)
      == Replace(Header(title, meter, defaultLength, key), " ", "") + "|:" + [x, '8', y, '2'] + ":|"
  {
    ExampleRewrite(x, y);
    ExampleSpaces(x, y);
    DocumentShape([x, '1', ' ', y, '/', '2', ' '], title, meter, defaultLength, key);
  }

  lemma ExampleRewrite(x: char, y: char)
    requires IsLetter(x) && IsLetter(y)
    ensures RewriteLengths([x, '1', ' ', y, '/', '2', ' ']) == [x, '8', ' ', y, '2', ' ']
  {
    ExampleOnes(x, y);
    ExampleSlash(x, y);
  }

  /** Replacing a one-character text. */
  lemma ReplaceOneChar(x: char, c: char, rep: string)
    ensures Replace([x], [c], rep) == if x == c then rep else [x]
  {
    assert [x][..1] == [x] && [x][1..] == [];
    assert Replace([], [c], rep) == [];
  }

  lemma ExampleOnes(x: char, y: char)
    requires IsLetter(x) && IsLetter(y)
    ensures Replace([x, '1', ' ', y, '/', '2', ' '], "1", "8") == [x, '8', ' ', y, '/', '2', ' ']
  {
    var tail := [' ', y, '/', '2', ' '];
    assert [x, '1', ' ', y, '/', '2', ' '] == [x] + ['1'] + tail;
    assert Replace([x] + ['1'] + tail, "1", "8")
      == Replace([x], "1", "8") + Replace(['1'], "1", "8") + Replace(tail, "1", "8") by {
      ReplaceCharConcat([x] + ['1'], tail, '1', "8");
      ReplaceCharConcat([x], ['1'], '1', "8");
    }
    assert Replace([x], "1", "8") == [x] by {
      ReplaceOneChar(x, '1', "8");
    }
    assert Replace(['1'], "1", "8") == "8" by {
      ReplaceOneChar('1', '1', "8");
    }
    assert Replace(tail, "1", "8") == tail by {
      assert '1' !in tail;
      ReplaceCharAbsent(tail, '1', "8");
    }
    assert [x] + "8" + tail == [x, '8', ' ', y, '/', '2', ' '];
  }

  /** One step of `Replace` at a position where the pattern does not start. */
  lemma ReplaceSkip(s: string, pat: string, rep: string)
    requires pat != [] && |s| >= |pat| && s[0] != pat[0]
    ensures Replace(s, pat, rep) == [s[0]] + Replace(s[1..], pat, rep)
  {
    assert s[..|pat|][0] == s[0];
  }

  lemma ExampleSlash(x: char, y: char)
    requires IsLetter(x) && IsLetter(y)
    ensures Replace([x, '8', ' ', y, '/', '2', ' '], "/2", "2") == [x, '8', ' ', y, '2', ' ']
  {
    var s2 := [' ', y, '/', '2', ' '];
    SlashTail(y);
    var s1 := ['8'] + s2;
    assert Replace(s1, "/2", "2") == ['8', ' ', y, '2', ' '] by {
      assert s1[1..] == s2;
      ReplaceSkip(s1, "/2", "2");
    }
    var s0 := [x] + s1;
    assert Replace(s0, "/2", "2") == [x, '8', ' ', y, '2', ' '] by {
      assert s0[1..] == s1;
      ReplaceSkip(s0, "/2", "2");
    }
    assert s0 == [x, '8', ' ', y, '/', '2', ' '];
  }

  lemma SlashTail(y: char)
    requires IsLetter(y)
    ensures Replace([' ', y, '/', '2', ' '], "/2", "2") == [' ', y, '2', ' ']
  {
    var s4 := ['/', '2', ' '];
    assert Replace(s4, "/2", "2") == ['2', ' '] by {
      assert s4[..2] == "/2" && s4[2..] == " ";
      assert Replace(" ", "/2", "2") == " ";
    }
    var s3 := [y] + s4;
    assert Replace(s3, "/2", "2") == [y, '2', ' '] by {
      assert s3[1..] == s4;
      ReplaceSkip(s3, "/2", "2");
    }
    var s2 := [' '] + s3;
    assert Replace(s2, "/2", "2") == [' ', y, '2', ' '] by {
      assert s2[1..] == s3;
      ReplaceSkip(s2, "/2", "2");
    }
    assert s2 == [' ', y, '/', '2', ' '];
  }

  lemma ExampleSpaces(x: char, y: char)
    requires IsLetter(x) && IsLetter(y)
    ensures Replace([x, '8', ' ', y, '2', ' '], " ", "") == [x, '8', y, '2']
  {
    var a, b := [x, '8'], [y, '2'];
    assert [x, '8', ' ', y, '2', ' '] == a + " " + b + " ";
    assert Replace(a + " " + b + " ", " ", "")
      == Replace(a, " ", "") + Replace(" ", " ", "") + Replace(b, " ", "") + Replace(" ", " ", "") by {
      ReplaceCharConcat(a + " " + b, " ", ' ', "");
      ReplaceCharConcat(a + " ", b, ' ', "");
      ReplaceCharConcat(a, " ", ' ', "");
    }
    assert Replace(" ", " ", "") == "" by {
      ReplaceOneChar(' ', ' ', "");
    }
    assert Replace(a, " ", "") == a by {
      ReplaceCharAbsent(a, ' ', "");
    }
    assert Replace(b, " ", "") == b by {
      ReplaceCharAbsent(b, ' ', "");
    }
    assert a + "" + b + "" == [x, '8', y, '2'];
  }
}
