/** The behaviour the tag parser's unit tests pin down, as lemmas about the Dafny parser. */
module TagParserExamples {
  import opened Wrappers
  import opened Strings
  import opened TagParser

  lemma PhraseStartCountsHashes()
    ensures PhraseStart("#(foo", 0) == Some((1, 2))
    ensures PhraseStart("###(foo", 0) == Some((3, 4))
  {
    PhraseStartIff("#(foo", 0, 1);
    PhraseStartIff("###(foo", 0, 3);
  }

  lemma PhraseEndNeedsEnough()
    ensures PhraseEnd(")##", 0, 1) == Some(2)
    ensures PhraseEnd(")##", 0, 2) == Some(3)
    ensures PhraseEnd(")##", 0, 3) == None
  {
    PhraseEndIff(")##", 0, 1);
    PhraseEndIff(")##", 0, 2);
    PhraseEndIff(")##", 0, 3);
  }

  /** A content character is taken one at a time, and not where the closer stands. */
  lemma PhraseContentCharTakesOne()
    ensures PhraseContentChar("op)#", 0, 1) == Some(('o', 1))
    ensures PhraseContentChar("op)#", 2, 1) == None
  {
    assert !ClosesAt("op)#", 0, 1) && ClosesAt("op)#", 2, 1);
  }

  /** Phrase content may itself contain an opener. */
  lemma ContentMayHoldOpener()
    ensures PhraseContentUntil("#(ab)#", 0, 1) == Some(("#(ab", 6))
  {
    var s := "#(ab)#";
    assert ClosesAt(s, 4, 1);
    assert !ClosesAt(s, 0, 1) && !ClosesAt(s, 1, 1) && !ClosesAt(s, 2, 1) && !ClosesAt(s, 3, 1);
    PhraseContentIff(s, 0, 1, s[0..4], 4);
    assert s[0..4] == "#(ab";
  }

  lemma PhraseHashExamples()
    ensures PhraseHash("#(ab)#", 0) == Some(("ab", 6))
    ensures PhraseHash("##(bc)##", 0) == Some(("bc", 8))
  {
    PhraseHashOne("#(ab)#");
    PhraseHashTwo("##(bc)##");
  }

  lemma PhraseHashOne(s: string)
    requires s == "#(ab)#"
    ensures PhraseHash(s, 0) == Some(("ab", 6))
  {
    PhraseStartIff(s, 0, 1);
    assert !ClosesAt(s, 2, 1) && !ClosesAt(s, 3, 1) && ClosesAt(s, 4, 1);
    PhraseContentIff(s, 2, 1, s[2..4], 4);
    assert s[2..4] == "ab";
  }

  lemma PhraseHashTwo(s: string)
    requires s == "##(bc)##"
    ensures PhraseHash(s, 0) == Some(("bc", 8))
  {
    PhraseStartIff(s, 0, 2);
    assert !ClosesAt(s, 3, 2) && !ClosesAt(s, 4, 2) && ClosesAt(s, 5, 2);
    PhraseContentIff(s, 3, 2, s[3..5], 5);
    assert s[3..5] == "bc";
  }

  lemma WordHashExample()
    ensures WordHash("#asdf", 0) == Some(("asdf", 5))
  {
    var s := "#asdf";
    assert WordAt(s, 0, 5);
    WordHashIff(s, 0, s[1..5], 5);
    assert s[1..5] == "asdf";
  }

  // ---------------------------------------------------------------------------------------------
  // Steps of the scan: a piece of text found at position i, and the parts the scan reads from it
  // ---------------------------------------------------------------------------------------------

  /** A piece of text at position i: its characters are in place and the remainder follows it. */
  lemma SegmentAt(s: string, i: nat, seg: string, rest: string)
    requires i <= |s| && s[i..] == seg + rest
    ensures i + |seg| <= |s| && s[i + |seg|..] == rest
    ensures forall k :: i <= k < i + |seg| ==> s[k] == seg[k - i]
  {
    assert forall k :: i <= k < i + |seg| ==> s[k] == s[i..][k - i];
    assert s[i + |seg|..] == s[i..][|seg|..];
  }

  lemma SliceIs(s: string, i: nat, t: string)
    requires i + |t| <= |s| && forall k :: 0 <= k < |t| ==> s[i + k] == t[k]
    ensures s[i..i + |t|] == t
  {
  }

  lemma PartStep(s: string, i: nat, pp: ParsedPart, j: nat)
    requires i <= |s| && CharOrHash(s, i) == Some((pp, j))
    ensures ParsedParts(s, i) == [pp] + ParsedParts(s, j)
  {
  }

  lemma {:induction false} PlainRunParts(s: string, a: nat, b: nat)
    requires a <= b <= |s| && forall k :: a <= k < b ==> s[k] != '#'
    ensures ParsedParts(s, a) == CharParts(s[a..b]) + ParsedParts(s, b)
    decreases b - a
  {
    if a < b {
      var a' := a + 1;
      PlainCharacter(s, a);
      PartStep(s, a, CharPart(s[a]), a');
      PlainRunParts(s, a', b);
      RunCons(s, a, a', b);
      RegroupParts(ParsedParts(s, a), [CharPart(s[a])], ParsedParts(s, a'), CharParts(s[a'..b]),
        ParsedParts(s, b), CharParts(s[a..b]));
    } else {
      assert s[a..b] == [];
    }
  }

  lemma RunCons(s: string, a: nat, a': nat, b: nat)
    requires a < b <= |s| && a' == a + 1
    ensures CharParts(s[a..b]) == [CharPart(s[a])] + CharParts(s[a'..b])
  {
    var run := s[a..b];
    assert run[0] == s[a] && run[1..] == s[a'..b];
  }

  lemma RegroupParts(p0: seq<ParsedPart>, x: seq<ParsedPart>, p1: seq<ParsedPart>, y: seq<ParsedPart>,
                 p2: seq<ParsedPart>, r: seq<ParsedPart>)
    requires p0 == x + p1 && p1 == y + p2 && r == x + y
    ensures p0 == r + p2
  {
  }

  /** Text without '#' from i to j: one character part per character. */
  lemma PlainPiece(s: string, i: nat, t: string, rest: string, j: nat)
    requires i <= |s| && s[i..] == t + rest && '#' !in t && j == i + |t|
    ensures j <= |s| && s[j..] == rest
    ensures ParsedParts(s, i) == CharParts(t) + ParsedParts(s, j)
  {
    SegmentAt(s, i, t, rest);
    PlainRunParts(s, i, j);
    SliceIs(s, i, t);
  }

  /** '#' and a word that nothing alphanumeric follows, from i to j: a word tag. */
  lemma WordPiece(s: string, i: nat, w: string, rest: string, j: nat)
    requires i <= |s| && s[i..] == "#" + w + rest && j == i + 1 + |w|
    requires w != [] && forall k :: 0 <= k < |w| ==> IsAlphanumeric(w[k])
    requires rest == [] || !IsAlphanumeric(rest[0])
    ensures j <= |s| && s[j..] == rest
    ensures ParsedParts(s, i) == [TagPart(w)] + ParsedParts(s, j)
  {
    WordFacts(s, i, w, rest);
    WordTag(s, i, j);
    PartStep(s, i, TagPart(w), j);
  }

  /** Where '#' and a word sit at i, a word tag runs from i to the end of the word. */
  lemma WordFacts(s: string, i: nat, w: string, rest: string)
    requires i <= |s| && s[i..] == "#" + w + rest
    requires w != [] && forall k :: 0 <= k < |w| ==> IsAlphanumeric(w[k])
    requires rest == [] || !IsAlphanumeric(rest[0])
    ensures i + 1 + |w| <= |s| && s[i + 1 + |w|..] == rest
    ensures WordAt(s, i, i + 1 + |w|) && s[i + 1..i + 1 + |w|] == w
  {
    var j := i + 1 + |w|;
    var seg := "#" + w;
    SegmentAt(s, i, seg, rest);
    assert s[i] == seg[0];
    forall k | 0 <= k < |w|
      ensures s[i + 1 + k] == w[k]
    {
      assert s[i + 1 + k] == seg[1 + k];
    }
    assert forall k :: i < k < j ==> s[k] == w[k - i - 1];
    assert j < |s| ==> s[j] == s[j..][0];
    SliceIs(s, i + 1, w);
  }

  /** The characters of a phrase tag's text: |h| hashes, '(', the content, ')' and |h| hashes. */
  lemma PhraseShape(h: string, p: string)
    ensures var seg := h + "(" + p + ")" + h; var n := |h|;
      |seg| == 2 * n + 2 + |p|
      && (forall k :: 0 <= k < n ==> seg[k] == h[k] && seg[n + 2 + |p| + k] == h[k])
      && seg[n] == '(' && seg[n + 1 + |p|] == ')'
      && (forall k :: 0 <= k < |p| ==> seg[n + 1 + k] == p[k])
      && seg[n + 1..n + 1 + |p|] == p
  {
  }

  /** Where a phrase tag's text sits at i, its opener, its first closer and its content are found there. */
  lemma PhraseFacts(s: string, i: nat, h: string, p: string, rest: string, n: nat, q: nat, j: nat)
    requires i <= |s| && s[i..] == h + "(" + p + ")" + h + rest
    requires h != [] && forall k :: 0 <= k < |h| ==> h[k] == '#'
    requires p != [] && ')' !in p
    requires n == |h| && q == i + n + 1 + |p| && j == q + 1 + n
    ensures j <= |s| && s[j..] == rest && Opens(s, i, n) && ClosesAt(s, q, n)
    ensures (forall r :: i + n + 1 <= r < q ==> !ClosesAt(s, r, n)) && s[i + n + 1..q] == p
  {
    var seg := h + "(" + p + ")" + h;
    assert s[i..] == seg + rest;
    SegmentAt(s, i, seg, rest);
    PhraseShape(h, p);
    PhraseOpens(s, i, seg, h, p);
    PhraseCloses(s, i, seg, h, p);
    PhraseContent(s, i, seg, h, p);
  }

  lemma PhraseOpens(s: string, i: nat, seg: string, h: string, p: string)
    requires seg == h + "(" + p + ")" + h && i + |seg| <= |s|
    requires forall k :: i <= k < i + |seg| ==> s[k] == seg[k - i]
    requires h != [] && forall k :: 0 <= k < |h| ==> h[k] == '#'
    ensures Opens(s, i, |h|)
  {
    PhraseShape(h, p);
    assert forall k :: i <= k < i + |h| ==> s[k] == seg[k - i] == h[k - i];
    assert s[i + |h|] == seg[|h|];
  }

  lemma PhraseCloses(s: string, i: nat, seg: string, h: string, p: string)
    requires seg == h + "(" + p + ")" + h && i + |seg| <= |s|
    requires forall k :: i <= k < i + |seg| ==> s[k] == seg[k - i]
    requires h != [] && forall k :: 0 <= k < |h| ==> h[k] == '#'
    requires ')' !in p
    ensures var q := i + |h| + 1 + |p|;
      ClosesAt(s, q, |h|) && forall r :: i + |h| + 1 <= r < q ==> !ClosesAt(s, r, |h|)
  {
    PhraseShape(h, p);
    PhraseCloser(s, i, seg, h, p);
    forall r | i + |h| + 1 <= r < i + |h| + 1 + |p|
      ensures !ClosesAt(s, r, |h|)
    {
      assert s[r] == seg[|h| + 1 + (r - i - |h| - 1)] == p[r - i - |h| - 1];
    }
  }

  lemma PhraseCloser(s: string, i: nat, seg: string, h: string, p: string)
    requires seg == h + "(" + p + ")" + h && i + |seg| <= |s|
    requires forall k :: i <= k < i + |seg| ==> s[k] == seg[k - i]
    requires h != [] && forall k :: 0 <= k < |h| ==> h[k] == '#'
    ensures ClosesAt(s, i + |h| + 1 + |p|, |h|)
  {
    var n := |h|;
    var q := i + n + 1 + |p|;
    PhraseShape(h, p);
    assert s[q] == seg[n + 1 + |p|];
    forall k | q < k <= q + n
      ensures s[k] == '#'
    {
      assert s[k] == seg[n + 2 + |p| + (k - q - 1)] == h[k - q - 1];
    }
  }

  lemma PhraseContent(s: string, i: nat, seg: string, h: string, p: string)
    requires seg == h + "(" + p + ")" + h && i + |seg| <= |s|
    requires forall k :: i <= k < i + |seg| ==> s[k] == seg[k - i]
    ensures s[i + |h| + 1..i + |h| + 1 + |p|] == p
  {
    PhraseShape(h, p);
    forall k | 0 <= k < |p|
      ensures s[i + |h| + 1 + k] == p[k]
    {
      assert s[i + |h| + 1 + k] == seg[|h| + 1 + k];
    }
    SliceIs(s, i + |h| + 1, p);
  }

  /** An opener of |h| hashes, content without ')' and the matching closer, from i to j: a phrase tag. */
  lemma PhrasePiece(s: string, i: nat, h: string, p: string, rest: string, j: nat)
    requires i <= |s| && s[i..] == h + "(" + p + ")" + h + rest && j == i + 2 * |h| + 2 + |p|
    requires h != [] && forall k :: 0 <= k < |h| ==> h[k] == '#'
    requires p != [] && ')' !in p
    ensures j <= |s| && s[j..] == rest
    ensures ParsedParts(s, i) == [TagPart(p)] + ParsedParts(s, j)
  {
    PhraseStep(s, i, h, p, rest, j);
    PartStep(s, i, TagPart(p), j);
  }

  lemma PhraseStep(s: string, i: nat, h: string, p: string, rest: string, j: nat)
    requires i <= |s| && s[i..] == h + "(" + p + ")" + h + rest && j == i + 2 * |h| + 2 + |p|
    requires h != [] && forall k :: 0 <= k < |h| ==> h[k] == '#'
    requires p != [] && ')' !in p
    ensures j <= |s| && s[j..] == rest
    ensures CharOrHash(s, i) == Some((TagPart(p), j))
  {
    var n := |h|;
    var q := i + n + 1 + |p|;
    PhraseFacts(s, i, h, p, rest, n, q, j);
    PhraseTagIs(s, i, n, q, p, j);
  }

  lemma PhraseTagIs(s: string, i: nat, n: nat, q: nat, p: string, j: nat)
    requires Opens(s, i, n) && i + n + 1 < q && ClosesAt(s, q, n)
    requires forall r :: i + n + 1 <= r < q ==> !ClosesAt(s, r, n)
    requires s[i + n + 1..q] == p && j == q + 1 + n
    ensures CharOrHash(s, i) == Some((TagPart(p), j))
  {
    PhraseTag(s, i, n, q);
  }

  // ---------------------------------------------------------------------------------------------
  // The shapes of the unit tests' texts
  // ---------------------------------------------------------------------------------------------

  /** Text, a phrase tag, a word tag straight after its closer, and text: two tags between the runs. */
  lemma PhraseThenWordParts(s: string, a: string, h: string, p: string, w: string, b: string)
    requires s == a + (h + "(" + p + ")" + h + ("#" + w + b))
    requires '#' !in a && '#' !in b
    requires h != [] && (forall k :: 0 <= k < |h| ==> h[k] == '#')
    requires p != [] && ')' !in p
    requires w != [] && (forall k :: 0 <= k < |w| ==> IsAlphanumeric(w[k]))
    requires b == [] || !IsAlphanumeric(b[0])
    ensures ParsedParts(s, 0) == CharParts(a) + ([TagPart(p)] + ([TagPart(w)] + CharParts(b)))
  {
    var r := h + "(" + p + ")" + h + ("#" + w + b);
    var j := |a|;
    assert s[0..] == a + r;
    PlainPiece(s, 0, a, r, j);
    PhraseThenWordText(s, j, h, p, w, b);
  }

  /** A phrase tag, a word tag straight after its closer, and text without '#' to the end. */
  lemma PhraseThenWordText(s: string, i: nat, h: string, p: string, w: string, b: string)
    requires i <= |s| && s[i..] == h + "(" + p + ")" + h + ("#" + w + b)
    requires '#' !in b
    requires h != [] && (forall k :: 0 <= k < |h| ==> h[k] == '#')
    requires p != [] && ')' !in p
    requires w != [] && (forall k :: 0 <= k < |w| ==> IsAlphanumeric(w[k]))
    requires b == [] || !IsAlphanumeric(b[0])
    ensures ParsedParts(s, i) == [TagPart(p)] + ([TagPart(w)] + CharParts(b))
  {
    var j := i + 2 * |h| + 2 + |p|;
    PhrasePiece(s, i, h, p, "#" + w + b, j);
    WordThenText(s, j, w, b);
  }

  /** A word tag and text without '#' to the end. */
  lemma WordThenText(s: string, i: nat, w: string, b: string)
    requires i <= |s| && s[i..] == "#" + w + b
    requires '#' !in b
    requires w != [] && (forall k :: 0 <= k < |w| ==> IsAlphanumeric(w[k]))
    requires b == [] || !IsAlphanumeric(b[0])
    ensures ParsedParts(s, i) == [TagPart(w)] + CharParts(b)
  {
    var j := i + 1 + |w|;
    WordPiece(s, i, w, b, j);
    TextToEnd(s, j, b);
  }

  /** Text, a word tag, text, a one-hash phrase tag and text: the parts between the runs are the two tags. */
  lemma WordThenPhraseParts(s: string, a: string, w: string, b: string, p: string, c: string)
    requires s == a + ("#" + w + (b + ("#" + "(" + p + ")" + "#" + c)))
    requires '#' !in a && '#' !in b && '#' !in c
    requires w != [] && (forall k :: 0 <= k < |w| ==> IsAlphanumeric(w[k]))
    requires b != [] && !IsAlphanumeric(b[0])
    requires p != [] && ')' !in p
    ensures ParsedParts(s, 0) == CharParts(a) + ([TagPart(w)] + (CharParts(b) + ([TagPart(p)] + CharParts(c))))
  {
    var r := "#" + w + (b + ("#" + "(" + p + ")" + "#" + c));
    var j := |a|;
    assert s[0..] == a + r;
    PlainPiece(s, 0, a, r, j);
    WordThenTextParts(s, j, w, b, p, c);
  }

  lemma WordThenTextParts(s: string, i: nat, w: string, b: string, p: string, c: string)
    requires i <= |s| && s[i..] == "#" + w + (b + ("#" + "(" + p + ")" + "#" + c))
    requires '#' !in b && '#' !in c
    requires w != [] && (forall k :: 0 <= k < |w| ==> IsAlphanumeric(w[k]))
    requires b != [] && !IsAlphanumeric(b[0])
    requires p != [] && ')' !in p
    ensures ParsedParts(s, i) == [TagPart(w)] + (CharParts(b) + ([TagPart(p)] + CharParts(c)))
  {
    var j := i + 1 + |w|;
    WordPiece(s, i, w, b + ("#" + "(" + p + ")" + "#" + c), j);
    TextThenPhraseParts(s, j, b, p, c);
  }

  lemma TextThenPhraseParts(s: string, i: nat, b: string, p: string, c: string)
    requires i <= |s| && s[i..] == b + ("#" + "(" + p + ")" + "#" + c)
    requires '#' !in b && '#' !in c
    requires p != [] && ')' !in p
    ensures ParsedParts(s, i) == CharParts(b) + ([TagPart(p)] + CharParts(c))
  {
    var j := i + |b|;
    PlainPiece(s, i, b, "#" + "(" + p + ")" + "#" + c, j);
    PhraseThenTextParts(s, j, p, c);
  }

  lemma PhraseThenTextParts(s: string, i: nat, p: string, c: string)
    requires i <= |s| && s[i..] == "#" + "(" + p + ")" + "#" + c
    requires '#' !in c
    requires p != [] && ')' !in p
    ensures ParsedParts(s, i) == [TagPart(p)] + CharParts(c)
  {
    var j := i + 4 + |p|;
    PhrasePiece(s, i, "#", p, c, j);
    TextToEnd(s, j, c);
  }

  /** Text without '#' up to the end: character parts only. */
  lemma TextToEnd(s: string, i: nat, c: string)
    requires i <= |s| && s[i..] == c && '#' !in c
    ensures ParsedParts(s, i) == CharParts(c)
  {
    var j := i + |c|;
    assert s[i..] == c + [];
    PlainPiece(s, i, c, [], j);
    assert ParsedParts(s, j) == [];
  }

  /** Runs of characters carry no tags: the tags of such a sequence of parts are its two tags. */
  lemma WordThenPhraseTags(a: string, w: string, b: string, p: string, c: string)
    ensures PartTags(CharParts(a) + ([TagPart(w)] + (CharParts(b) + ([TagPart(p)] + CharParts(c))))) == [w, p]
  {
    CharPartsHaveNoTags(a);
    CharPartsHaveNoTags(b);
    CharPartsHaveNoTags(c);
    PartTagsAppend([TagPart(p)], CharParts(c));
    PartTagsAppend(CharParts(b), [TagPart(p)] + CharParts(c));
    PartTagsAppend([TagPart(w)], CharParts(b) + ([TagPart(p)] + CharParts(c)));
    PartTagsAppend(CharParts(a), [TagPart(w)] + (CharParts(b) + ([TagPart(p)] + CharParts(c))));
  }

  /** Word tags separated by single spaces. */
  function SpacedWords(ws: seq<string>): string
  {
    if ws == [] then "" else if |ws| == 1 then "#" + ws[0] else "#" + ws[0] + " " + SpacedWords(ws[1..])
  }

  /** The parts such a text is read as: a tag per word, a character part per space. */
  function SpacedParts(ws: seq<string>): seq<ParsedPart>
  {
    if ws == [] then [] else if |ws| == 1 then [TagPart(ws[0])]
    else [TagPart(ws[0])] + ([CharPart(' ')] + SpacedParts(ws[1..]))
  }

  /** Word tags separated by single spaces are read as a tag per word with a space between each two. */
  lemma {:induction false} SpacedWordsParts(s: string, i: nat, ws: seq<string>)
    requires i <= |s| && s[i..] == SpacedWords(ws)
    requires forall m :: 0 <= m < |ws| ==> ws[m] != [] && forall k :: 0 <= k < |ws[m]| ==> IsAlphanumeric(ws[m][k])
    ensures ParsedParts(s, i) == SpacedParts(ws)
    decreases |ws|
  {
    if ws == [] {
      assert i == |s|;
    } else if |ws| == 1 {
      var j := i + 1 + |ws[0]|;
      assert s[i..] == "#" + ws[0] + [];
      WordPiece(s, i, ws[0], [], j);
      assert ParsedParts(s, j) == [];
    } else {
      var tail := SpacedWords(ws[1..]);
      var j := i + 1 + |ws[0]|;
      var k := j + 1;
      assert s[i..] == "#" + ws[0] + (" " + tail);
      WordPiece(s, i, ws[0], " " + tail, j);
      PlainPiece(s, j, " ", tail, k);
      assert CharParts(" ") == [CharPart(' ')];
      SpacedWordsParts(s, k, ws[1..]);
    }
  }

  /** The tags of word tags separated by single spaces are those words, in order, repeats kept. */
  lemma {:induction false} SpacedPartsTags(ws: seq<string>)
    ensures PartTags(SpacedParts(ws)) == ws
    decreases |ws|
  {
    if |ws| > 1 {
      SpacedPartsTags(ws[1..]);
      PartTagsAppend([CharPart(' ')], SpacedParts(ws[1..]));
      PartTagsAppend([TagPart(ws[0])], [CharPart(' ')] + SpacedParts(ws[1..]));
      assert ws == [ws[0]] + ws[1..];
    }
  }

  /** The parsed parts of "ab ##(cd)###z qw": the hash left over after the two-hash closer starts a word tag. */
  lemma CollectExampleParts(s: string)
    requires s == "ab " + "##(cd)##" + "#z" + " qw"
    ensures ParsedParts(s, 0) == CharParts("ab ") + [TagPart("cd")] + [TagPart("z")] + CharParts(" qw")
  {
    assert s == "ab " + ("##" + "(" + "cd" + ")" + "##" + ("#" + "z" + " qw"));
    PhraseThenWordParts(s, "ab ", "##", "cd", "z", " qw");
    Regroup(CharParts("ab "), TagPart("cd"), TagPart("z"), CharParts(" qw"));
  }

  /** The tags of "#a #b #a #b #c #a #c" in text order. */
  lemma DedupExampleTags(s: string)
    requires s == "#a" + " " + "#b" + " " + "#a" + " " + "#b" + " " + "#c" + " " + "#a" + " " + "#c"
    ensures TagList(s) == ["a", "b", "a", "b", "c", "a", "c"]
  {
    var ws := ["a", "b", "a", "b", "c", "a", "c"];
    DedupExampleText(s, ws);
    assert s[0..] == s;
    SpacedWordsParts(s, 0, ws);
    SpacedPartsTags(ws);
  }

  lemma DedupExampleText(s: string, ws: seq<string>)
    requires s == "#a" + " " + "#b" + " " + "#a" + " " + "#b" + " " + "#c" + " " + "#a" + " " + "#c"
    requires ws == ["a", "b", "a", "b", "c", "a", "c"]
    ensures s == SpacedWords(ws)
    ensures forall m :: 0 <= m < |ws| ==> ws[m] != [] && forall k :: 0 <= k < |ws[m]| ==> IsAlphanumeric(ws[m][k])
  {
    var t := "#a" + " " + ("#b" + " " + ("#a" + " " + ("#b" + " " + ("#c" + " " + ("#a" + " " + "#c")))));
    assert s == t;
    DedupExampleSpaced(ws, t);
    SingleLetters(ws);
  }

  lemma DedupExampleSpaced(ws: seq<string>, t: string)
    requires ws == ["a", "b", "a", "b", "c", "a", "c"]
    requires t == "#a" + " " + ("#b" + " " + ("#a" + " " + ("#b" + " " + ("#c" + " " + ("#a" + " " + "#c")))))
    ensures t == SpacedWords(ws)
  {
    var l6 := ["c"];
    var l5 := ["a"] + l6;
    var l4 := ["c"] + l5;
    var l3 := ["b"] + l4;
    var l2 := ["a"] + l3;
    var l1 := ["b"] + l2;
    var t6 := "#c";
    var t5 := "#a" + " " + t6;
    var t4 := "#c" + " " + t5;
    var t3 := "#b" + " " + t4;
    var t2 := "#a" + " " + t3;
    var t1 := "#b" + " " + t2;
    assert SpacedWords(l6) == t6;
    SpacedCons("a", "#a", l6, t6);
    SpacedCons("c", "#c", l5, t5);
    SpacedCons("b", "#b", l4, t4);
    SpacedCons("a", "#a", l3, t3);
    SpacedCons("b", "#b", l2, t2);
    SpacedCons("a", "#a", l1, t1);
    assert ws == ["a"] + l1;
  }

  lemma SpacedCons(w: string, hw: string, ws: seq<string>, tail: string)
    requires ws != [] && hw == "#" + w && SpacedWords(ws) == tail
    ensures SpacedWords([w] + ws) == hw + " " + tail
  {
    assert ([w] + ws)[1..] == ws;
  }

  lemma SingleLetters(ws: seq<string>)
    requires forall m :: 0 <= m < |ws| ==> ws[m] == "a" || ws[m] == "b" || ws[m] == "c"
    ensures forall m :: 0 <= m < |ws| ==> ws[m] != [] && forall k :: 0 <= k < |ws[m]| ==> IsAlphanumeric(ws[m][k])
  {
  }

  /** The tags of "hello #world this is a #(phrase tag)#, whee" in text order. */
  lemma FindExampleTags(s: string)
    requires s == "hello " + "#world" + " this is a " + "#(phrase tag)#" + ", whee"
    ensures TagList(s) == ["world", "phrase tag"]
  {
    FindExampleText(s);
    WordThenPhraseParts(s, "hello ", "world", " this is a ", "phrase tag", ", whee");
    WordThenPhraseTags("hello ", "world", " this is a ", "phrase tag", ", whee");
  }

  lemma FindExampleText(s: string)
    requires s == "hello " + "#world" + " this is a " + "#(phrase tag)#" + ", whee"
    ensures s == "hello " + ("#" + "world" + (" this is a " + ("#" + "(" + "phrase tag" + ")" + "#" + ", whee")))
    ensures forall k :: 0 <= k < |"world"| ==> IsAlphanumeric("world"[k])
  {
  }

  lemma CollectedFour(cps: seq<CollectedPart>, a: string, t1: string, t2: string, b: string)
    requires a != [] && b != []
    requires Canonical(cps) && Expand(cps) == CharParts(a) + [TagPart(t1)] + [TagPart(t2)] + CharParts(b)
    ensures cps == [Chars(a), CollectedTag(t1), CollectedTag(t2), Chars(b)]
  {
    ExpandFour(a, t1, t2, b);
    CanonicalFour(a, t1, t2, b);
    CanonicalUnique(cps, [Chars(a), CollectedTag(t1), CollectedTag(t2), Chars(b)]);
  }

  lemma ExpandFour(a: string, t1: string, t2: string, b: string)
    ensures Expand([Chars(a), CollectedTag(t1), CollectedTag(t2), Chars(b)])
      == CharParts(a) + [TagPart(t1)] + [TagPart(t2)] + CharParts(b)
  {
    var e3 := [Chars(b)];
    var e2 := [CollectedTag(t2)] + e3;
    var e1 := [CollectedTag(t1)] + e2;
    var e0 := [Chars(a)] + e1;
    ExpandCons(Chars(b), []);
    assert e3 == [Chars(b)] + [];
    ExpandCons(CollectedTag(t2), e3);
    ExpandCons(CollectedTag(t1), e2);
    ExpandCons(Chars(a), e0[1..]);
    assert e0 == [Chars(a), CollectedTag(t1), CollectedTag(t2), Chars(b)];
    assert CharParts(b) + [] == CharParts(b);
    Regroup(CharParts(a), TagPart(t1), TagPart(t2), CharParts(b));
  }

  lemma ExpandCons(cp: CollectedPart, tail: seq<CollectedPart>)
    ensures Expand([cp] + tail) == PartsOf(cp) + Expand(tail)
  {
    assert ([cp] + tail)[1..] == tail;
  }

  lemma Regroup(x: seq<ParsedPart>, p: ParsedPart, q: ParsedPart, y: seq<ParsedPart>)
    ensures x + ([p] + ([q] + y)) == x + [p] + [q] + y
  {
  }

  lemma CanonicalFour(a: string, t1: string, t2: string, b: string)
    requires a != [] && b != []
    ensures Canonical([Chars(a), CollectedTag(t1), CollectedTag(t2), Chars(b)])
  {
  }

  /** text_parts on "ab ##(cd)###z qw": whatever collection the collector returns is this one. */
  lemma TextPartsExample(s: string, cps: seq<CollectedPart>)
    requires s == "ab " + "##(cd)##" + "#z" + " qw"
    requires Canonical(cps) && Expand(cps) == ParsedParts(s, 0)
    ensures TextParts(cps) == [Str("ab "), TextTag("cd"), TextTag("z"), Str(" qw")]
  {
    CollectExampleParts(s);
    CollectedFour(cps, "ab ", "cd", "z", " qw");
    TextPartsFour("ab ", "cd", "z", " qw");
  }

  lemma TextPartsFour(a: string, t1: string, t2: string, b: string)
    ensures TextParts([Chars(a), CollectedTag(t1), CollectedTag(t2), Chars(b)]) == [Str(a), TextTag(t1), TextTag(t2), Str(b)]
  {
    var e3 := [Chars(b)];
    var e2 := [CollectedTag(t2)] + e3;
    var e1 := [CollectedTag(t1)] + e2;
    var e0 := [Chars(a)] + e1;
    assert e3[1..] == [] && e2[1..] == e3 && e1[1..] == e2 && e0[1..] == e1;
    assert TextParts(e3) == [Str(b)];
    assert TextParts(e2) == [TextTag(t2)] + [Str(b)];
    assert TextParts(e1) == [TextTag(t1)] + ([TextTag(t2)] + [Str(b)]);
    assert TextParts(e0) == [Str(a)] + ([TextTag(t1)] + ([TextTag(t2)] + [Str(b)]));
    assert e0 == [Chars(a), CollectedTag(t1), CollectedTag(t2), Chars(b)];
  }

  /** find_tags of "#a #b #a #b #c #a #c" is ["a", "b", "c"]: sorted, each tag once. */
  lemma DedupExample()
    ensures Tags("#a" + " " + "#b" + " " + "#a" + " " + "#b" + " " + "#c" + " " + "#a" + " " + "#c") == ["a", "b", "c"]
  {
    DedupExampleTags("#a" + " " + "#b" + " " + "#a" + " " + "#b" + " " + "#c" + " " + "#a" + " " + "#c");
    assert StrLess("a", "b") && StrLess("b", "c") && StrLess("a", "c");
    StrictlySortedUnique(Tags("#a" + " " + "#b" + " " + "#a" + " " + "#b" + " " + "#c" + " " + "#a" + " " + "#c"), ["a", "b", "c"]);
  }

  /** find_tags of "hello #world this is a #(phrase tag)#, whee" is ["phrase tag", "world"]. */
  lemma FindExample()
    ensures Tags("hello " + "#world" + " this is a " + "#(phrase tag)#" + ", whee") == ["phrase tag", "world"]
  {
    FindExampleTags("hello " + "#world" + " this is a " + "#(phrase tag)#" + ", whee");
    assert StrLess("phrase tag", "world");
    StrictlySortedUnique(Tags("hello " + "#world" + " this is a " + "#(phrase tag)#" + ", whee"), ["phrase tag", "world"]);
  }

  /** The empty text has no tags. */
  lemma EmptyTextHasNoTags()
    ensures Tags("") == []
  {
  }
}
