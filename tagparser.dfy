/**
 * The tag grammar of diary texts. Each parser is a function from a position in the text to an
 * optional (value, next position). Choice is ordered and repetition is greedy without
 * backtracking, as in the parser-combinator library the grammar is written with; a parser that
 * fails consumes nothing, and the whole text parser never fails.
 */
module TagParser {
  import opened Wrappers
  import opened Strings

  /** One step of the scan: a plain character or a tag. */
  datatype ParsedPart = CharPart(c: char) | TagPart(tag: string)

  /** Runs of plain characters merged into one part. */
  datatype CollectedPart = Chars(chars: string) | CollectedTag(tag: string)

  /** The parts of a text as the tag finder sees them. */
  datatype TextPart = Str(text: string) | TextTag(tag: string)

  // ---------------------------------------------------------------------------------------------
  // The combinators
  // ---------------------------------------------------------------------------------------------

  /** sym('#') repeated greedily, at most max times: the number of '#' taken at position i. */
  function Hashes(s: string, i: nat, max: nat): (n: nat)
    requires i <= |s|
    ensures n <= max && i + n <= |s|
    decreases max
  {
    if max > 0 && i < |s| && s[i] == '#' then 1 + Hashes(s, i + 1, max - 1) else 0
  }

  /** The run Hashes takes is all '#', and it stops at max, at the end, or before a character that is not '#'. */
  lemma {:induction false} HashesRun(s: string, i: nat, max: nat)
    requires i <= |s|
    ensures var n := Hashes(s, i, max);
      (forall k :: i <= k < i + n ==> s[k] == '#') && (n == max || i + n == |s| || s[i + n] != '#')
    decreases max
  {
    if max > 0 && i < |s| && s[i] == '#' {
      HashesRun(s, i + 1, max - 1);
    }
  }

  /** A phrase opener of n hashes at position i. */
  predicate Opens(s: string, i: nat, n: nat)
  {
    1 <= n && i + n < |s| && (forall k :: i <= k < i + n ==> s[k] == '#') && s[i + n] == '('
  }

  /** phrase_start: one or more '#' directly followed by '('; yields the number of '#' and the position after '('. */
  function PhraseStart(s: string, i: nat): (r: Option<(nat, nat)>)
    requires i <= |s|
    ensures r.Some? ==> Opens(s, i, r.value.0) && r.value.1 == i + r.value.0 + 1
  {
    HashesRun(s, i, |s| - i);
    var n := Hashes(s, i, |s| - i);
    if n >= 1 && i + n < |s| && s[i + n] == '(' then Some((n, i + n + 1)) else None
  }

  /** A phrase closer for an opener of n hashes at position i: ')' and then n '#'. */
  predicate ClosesAt(s: string, i: nat, n: nat)
  {
    i + n < |s| && s[i] == ')' && forall k :: i < k <= i + n ==> s[k] == '#'
  }

  /** phrase_end(n): ')' and then '#' repeated at least n and at most n times. */
  function PhraseEnd(s: string, i: nat, n: nat): (r: Option<nat>)
    requires i <= |s|
    ensures r.Some? ==> r.value == i + 1 + n <= |s|
  {
    if i < |s| && s[i] == ')' then
      var h := Hashes(s, i + 1, n);
      if h >= n then Some(i + 1 + h) else None
    else None
  }

  /** phrase_content_char(end): one character, where the end parser does not match. */
  function PhraseContentChar(s: string, i: nat, n: nat): (r: Option<(char, nat)>)
    requires i <= |s|
    ensures r.Some? <==> i < |s| && !ClosesAt(s, i, n)
    ensures r.Some? ==> r.value == (s[i], i + 1)
  {
    PhraseEndIff(s, i, n);
    if i < |s| && PhraseEnd(s, i, n).None? then Some((s[i], i + 1)) else None
  }

  /**
   * Where repeating phrase_content_char(end) stops: the first position from p on where the end
   * parser matches, or the end of the text when it matches nowhere.
   */
  function ContentStop(s: string, p: nat, n: nat): (q: nat)
    requires p <= |s|
    ensures p <= q <= |s|
    ensures q == |s| || ClosesAt(s, q, n)
    ensures forall r :: p <= r < q ==> !ClosesAt(s, r, n)
    decreases |s| - p
  {
    PhraseEndIff(s, p, n);
    if PhraseContentChar(s, p, n).None? then p else ContentStop(s, p + 1, n)
  }

  /** phrase_content_until(end): one or more content characters and then the end. */
  function PhraseContentUntil(s: string, i: nat, n: nat): (r: Option<(string, nat)>)
    requires i <= |s|
    ensures r.Some? ==> i + 2 + n <= r.value.1 <= |s|
  {
    var q := ContentStop(s, i, n);
    if q > i then
      match PhraseEnd(s, q, n)
      case Some(j) => Some((s[i..q], j))
      case None => None
    else None
  }

  /** phrase_hash: an opener, then the content up to the closer with as many hashes. */
  function PhraseHash(s: string, i: nat): (r: Option<(string, nat)>)
    requires i <= |s|
    ensures r.Some? ==> i < r.value.1 <= |s|
  {
    match PhraseStart(s, i)
    case Some((n, j)) => PhraseContentUntil(s, j, n)
    case None => None
  }

  /** The length of the run of alphanumeric characters at position i. */
  function AlnumRun(s: string, i: nat): (n: nat)
    requires i <= |s|
    ensures i + n <= |s|
    decreases |s| - i
  {
    if i < |s| && IsAlphanumeric(s[i]) then 1 + AlnumRun(s, i + 1) else 0
  }

  /** AlnumRun takes alphanumerics only, and all of them up to the next other character. */
  lemma {:induction false} AlnumRunMaximal(s: string, i: nat)
    requires i <= |s|
    ensures var n := AlnumRun(s, i);
      (forall k :: i <= k < i + n ==> IsAlphanumeric(s[k])) && (i + n == |s| || !IsAlphanumeric(s[i + n]))
    decreases |s| - i
  {
    if i < |s| && IsAlphanumeric(s[i]) {
      AlnumRunMaximal(s, i + 1);
    }
  }

  /** A word tag from i to j: '#' and then a maximal run of one or more alphanumerics. */
  predicate WordAt(s: string, i: nat, j: nat)
  {
    i + 1 < j <= |s| && s[i] == '#' && (forall k :: i < k < j ==> IsAlphanumeric(s[k]))
    && (j == |s| || !IsAlphanumeric(s[j]))
  }

  /** word_hash: '#' and then alphanumerics, repeated one or more times; the tag leaves out the '#'. */
  function WordHash(s: string, i: nat): (r: Option<(string, nat)>)
    requires i <= |s|
    ensures r.Some? ==> i < r.value.1 <= |s|
  {
    if i < |s| && s[i] == '#' then
      var n := AlnumRun(s, i + 1);
      if n >= 1 then Some((s[i + 1..i + 1 + n], i + 1 + n)) else None
    else None
  }

  /** char_or_hash: a phrase tag, else a word tag, else one plain character. */
  function CharOrHash(s: string, i: nat): (r: Option<(ParsedPart, nat)>)
    requires i <= |s|
    ensures r.Some? <==> i < |s|
    ensures r.Some? ==> i < r.value.1 <= |s|
    ensures r.Some? && r.value.0.TagPart? ==> r.value.0.tag != []
  {
    PhraseHashTagNonEmpty(s, i);
    WordHashTagNonEmpty(s, i);
    match PhraseHash(s, i)
    case Some((t, j)) => Some((TagPart(t), j))
    case None =>
      match WordHash(s, i)
      case Some((t, j)) => Some((TagPart(t), j))
      case None => if i < |s| then Some((CharPart(s[i]), i + 1)) else None
  }

  /** parsed_parts: char_or_hash repeated until it fails, which happens only at the end of the text. */
  function ParsedParts(s: string, i: nat): seq<ParsedPart>
    requires i <= |s|
    decreases |s| - i
  {
    match CharOrHash(s, i)
    case Some((pp, j)) => [pp] + ParsedParts(s, j)
    case None => []
  }

  // ---------------------------------------------------------------------------------------------
  // The combinators against the declarative grammar
  // ---------------------------------------------------------------------------------------------

  lemma PhraseStartIff(s: string, i: nat, n: nat)
    requires i <= |s|
    ensures PhraseStart(s, i) == Some((n, i + n + 1)) <==> Opens(s, i, n)
  {
    var h := Hashes(s, i, |s| - i);
    HashesRun(s, i, |s| - i);
    assert Opens(s, i, n) ==> h == n;
  }

  lemma PhraseEndIff(s: string, i: nat, n: nat)
    requires i <= |s|
    ensures PhraseEnd(s, i, n).Some? <==> ClosesAt(s, i, n)
  {
    if i < |s| {
      HashesRun(s, i + 1, n);
    }
    assert ClosesAt(s, i, n) ==> Hashes(s, i + 1, n) == n;
  }

  /** The content is non-empty, ends at the first closer, and the parser resumes after exactly n hashes. */
  lemma PhraseContentIff(s: string, i: nat, n: nat, c: string, q: nat)
    requires i <= |s|
    ensures PhraseContentUntil(s, i, n) == Some((c, q + 1 + n))
        <==> (i < q <= |s| && ClosesAt(s, q, n) && (forall r :: i <= r < q ==> !ClosesAt(s, r, n)) && c == s[i..q])
  {
    var stop := ContentStop(s, i, n);
    PhraseEndIff(s, stop, n);
    assert stop < |s| ==> ClosesAt(s, stop, n);
  }

  lemma WordHashIff(s: string, i: nat, w: string, j: nat)
    requires i <= |s|
    ensures WordHash(s, i) == Some((w, j)) <==> (WordAt(s, i, j) && w == s[i + 1..j])
  {
    if i < |s| {
      AlnumRunMaximal(s, i + 1);
    }
    assert WordAt(s, i, j) ==> i + 1 + AlnumRun(s, i + 1) == j;
  }

  lemma PhraseHashTagNonEmpty(s: string, i: nat)
    requires i <= |s|
    ensures PhraseHash(s, i).Some? ==> PhraseHash(s, i).value.0 != []
  {
  }

  lemma WordHashTagNonEmpty(s: string, i: nat)
    requires i <= |s|
    ensures WordHash(s, i).Some? ==> WordHash(s, i).value.0 != []
  {
  }

  /** A character other than '#' is always plain text. */
  lemma PlainCharacter(s: string, i: nat)
    requires i < |s| && s[i] != '#'
    ensures CharOrHash(s, i) == Some((CharPart(s[i]), i + 1))
  {
  }

  /** A word tag wins wherever no phrase opens. */
  lemma WordTag(s: string, i: nat, j: nat)
    requires WordAt(s, i, j)
    ensures CharOrHash(s, i) == Some((TagPart(s[i + 1..j]), j))
  {
    WordHashIff(s, i, s[i + 1..j], j);
    assert s[i + 1] != '#' && s[i + 1] != '(';
  }

  /**
   * A '#' that opens no phrase and has no alphanumeric character after it is plain text. With
   * PlainCharacter, WordTag, PhraseTag and UnclosedPhraseIsText this covers every position.
   */
  lemma LoneHash(s: string, i: nat)
    requires i < |s| && s[i] == '#'
    requires forall n :: !Opens(s, i, n)
    requires i + 1 == |s| || !IsAlphanumeric(s[i + 1])
    ensures CharOrHash(s, i) == Some((CharPart('#'), i + 1))
  {
    assert PhraseStart(s, i).None?;
    assert AlnumRun(s, i + 1) == 0;
  }

  /** A phrase tag: an opener of n hashes at i, content up to the first closer at q. */
  lemma PhraseTag(s: string, i: nat, n: nat, q: nat)
    requires Opens(s, i, n)
    requires i + n + 1 < q && ClosesAt(s, q, n)
    requires forall r :: i + n + 1 <= r < q ==> !ClosesAt(s, r, n)
    ensures CharOrHash(s, i) == Some((TagPart(s[i + n + 1..q]), q + 1 + n))
  {
    PhraseStartIff(s, i, n);
    PhraseContentIff(s, i + n + 1, n, s[i + n + 1..q], q);
  }

  /**
   * An opener with no closer after it, or whose first closer follows it directly (empty content),
   * is not a tag: its first '#' is plain text and the scan goes on at the next character.
   */
  lemma UnclosedPhraseIsText(s: string, i: nat, n: nat)
    requires Opens(s, i, n)
    requires (forall q :: i + n + 1 <= q <= |s| ==> !ClosesAt(s, q, n)) || ClosesAt(s, i + n + 1, n)
    ensures CharOrHash(s, i) == Some((CharPart('#'), i + 1))
  {
    PhraseStartIff(s, i, n);
    assert PhraseStart(s, i) == Some((n, i + n + 1));
    var stop := ContentStop(s, i + n + 1, n);
    if stop < |s| {
      assert ClosesAt(s, stop, n);
    }
    assert PhraseHash(s, i).None?;
    assert s[i + 1] == '#' || s[i + 1] == '(';
  }

  // ---------------------------------------------------------------------------------------------
  // Trailing whitespace does not change the parse
  // ---------------------------------------------------------------------------------------------

  /** The parsed parts of a run of plain characters. */
  function CharParts(cs: string): (r: seq<ParsedPart>)
    ensures |r| == |cs|
    ensures forall k :: 0 <= k < |cs| ==> r[k] == CharPart(cs[k])
  {
    if cs == [] then [] else [CharPart(cs[0])] + CharParts(cs[1..])
  }

  lemma CharPartsAppend(a: string, b: string)
    ensures CharParts(a + b) == CharParts(a) + CharParts(b)
  {
    assert |CharParts(a + b)| == |CharParts(a) + CharParts(b)|;
    forall k | 0 <= k < |a + b|
      ensures CharParts(a + b)[k] == (CharParts(a) + CharParts(b))[k]
    {
      if k < |a| {
        assert (a + b)[k] == a[k];
      } else {
        assert (a + b)[k] == b[k - |a|];
      }
    }
  }

  lemma WhitespaceTail(s: string, w: string)
    requires AllWhitespace(w)
    ensures forall m :: |s| <= m < |s + w| ==> IsWhitespace((s + w)[m])
  {
    forall m | |s| <= m < |s + w|
      ensures IsWhitespace((s + w)[m])
    {
      assert (s + w)[m] == w[m - |s|];
    }
  }

  /** Closers are the same in s and in s followed by whitespace. */
  lemma ClosesAtExtend(s: string, w: string, q: nat, n: nat)
    requires AllWhitespace(w)
    ensures ClosesAt(s + w, q, n) <==> ClosesAt(s, q, n)
  {
    var t := s + w;
    WhitespaceTail(s, w);
    if ClosesAt(t, q, n) {
      assert IsWhitespace(t[q + n]) ==> q + n < |s|;
      forall k | q < k <= q + n
        ensures s[k] == '#'
      {
        assert t[k] == s[k];
      }
    }
    if ClosesAt(s, q, n) {
      forall k | q < k <= q + n
        ensures t[k] == '#'
      {
        assert t[k] == s[k];
      }
    }
  }

  lemma OpensExtend(s: string, w: string, i: nat, n: nat)
    requires AllWhitespace(w) && i < |s|
    ensures Opens(s + w, i, n) <==> Opens(s, i, n)
  {
    var t := s + w;
    WhitespaceTail(s, w);
    if Opens(t, i, n) {
      forall k | i <= k < i + n
        ensures s[k] == '#'
      {
        assert t[k] == s[k];
      }
    }
    if Opens(s, i, n) {
      forall k | i <= k < i + n
        ensures t[k] == '#'
      {
        assert t[k] == s[k];
      }
    }
  }

  lemma WordAtExtend(s: string, w: string, i: nat, j: nat)
    requires AllWhitespace(w) && i < |s|
    ensures WordAt(s + w, i, j) <==> WordAt(s, i, j)
  {
    var t := s + w;
    WhitespaceTail(s, w);
    assert |s| < |t| ==> !IsAlphanumeric(t[|s|]);
    if WordAt(t, i, j) {
      forall k | i < k < j
        ensures IsAlphanumeric(s[k])
      {
        assert t[k] == s[k];
      }
      if j < |s| {
        assert t[j] == s[j];
      }
    }
    if WordAt(s, i, j) {
      forall k | i < k < j
        ensures IsAlphanumeric(t[k])
      {
        assert t[k] == s[k];
      }
      if j < |s| {
        assert t[j] == s[j];
      } else if j < |t| {
        assert t[j] == w[0];
        assert IsWhitespace(w[0]);
      }
    }
  }

  lemma PhraseContentExtend(s: string, w: string, j: nat, n: nat)
    requires AllWhitespace(w) && j <= |s|
    ensures PhraseContentUntil(s + w, j, n) == PhraseContentUntil(s, j, n)
  {
    var t := s + w;
    var rs, rt := PhraseContentUntil(s, j, n), PhraseContentUntil(t, j, n);
    forall q | true
      ensures ClosesAt(t, q, n) <==> ClosesAt(s, q, n)
    {
      ClosesAtExtend(s, w, q, n);
    }
    if rs.Some? {
      var c, e := rs.value.0, rs.value.1;
      var q := e - 1 - n;
      PhraseContentIff(s, j, n, c, q);
      assert t[j..q] == s[j..q];
      PhraseContentIff(t, j, n, c, q);
    }
    if rt.Some? {
      var c, e := rt.value.0, rt.value.1;
      var q := e - 1 - n;
      PhraseContentIff(t, j, n, c, q);
      assert t[j..q] == s[j..q];
      PhraseContentIff(s, j, n, c, q);
    }
  }

  lemma CharOrHashExtend(s: string, w: string, i: nat)
    requires AllWhitespace(w) && i < |s|
    ensures CharOrHash(s + w, i) == CharOrHash(s, i)
  {
    var t := s + w;
    assert t[i] == s[i];
    // the phrase parser
    var ps, pt := PhraseStart(s, i), PhraseStart(t, i);
    if ps.Some? {
      OpensExtend(s, w, i, ps.value.0);
      PhraseStartIff(t, i, ps.value.0);
    } else if pt.Some? {
      OpensExtend(s, w, i, pt.value.0);
      PhraseStartIff(s, i, pt.value.0);
    }
    assert ps == pt;
    if ps.Some? {
      PhraseContentExtend(s, w, ps.value.1, ps.value.0);
    }
    assert PhraseHash(t, i) == PhraseHash(s, i);
    // the word parser
    var ws, wt := WordHash(s, i), WordHash(t, i);
    if ws.Some? {
      WordHashIff(s, i, ws.value.0, ws.value.1);
      WordAtExtend(s, w, i, ws.value.1);
      assert t[i + 1..ws.value.1] == s[i + 1..ws.value.1];
      WordHashIff(t, i, ws.value.0, ws.value.1);
    }
  }

  /** Past the end of the text proper, whitespace is scanned one plain character at a time. */
  lemma {:induction false} WhitespaceParts(t: string, j: nat)
    requires j <= |t| && AllWhitespace(t[j..])
    ensures ParsedParts(t, j) == CharParts(t[j..])
    decreases |t| - j
  {
    if j < |t| {
      assert t[j] == t[j..][0];
      PlainCharacter(t, j);
      assert t[j + 1..] == t[j..][1..];
      WhitespaceParts(t, j + 1);
    }
  }

  lemma {:induction false} ExtendParts(s: string, w: string, i: nat)
    requires AllWhitespace(w) && i <= |s|
    ensures ParsedParts(s + w, i) == ParsedParts(s, i) + CharParts(w)
    decreases |s| - i
  {
    var t := s + w;
    if i == |s| {
      assert t[i..] == w;
      WhitespaceParts(t, i);
    } else {
      CharOrHashExtend(s, w, i);
      var j := CharOrHash(s, i).value.1;
      ExtendParts(s, w, j);
    }
  }

  // ---------------------------------------------------------------------------------------------
  // Collected parts and text parts
  // ---------------------------------------------------------------------------------------------

  /** The parsed parts one collected part stands for. */
  function PartsOf(cp: CollectedPart): seq<ParsedPart>
  {
    match cp
    case Chars(cs) => CharParts(cs)
    case CollectedTag(t) => [TagPart(t)]
  }

  /** The parsed parts a sequence of collected parts stands for. */
  function Expand(cps: seq<CollectedPart>): seq<ParsedPart>
  {
    if cps == [] then [] else PartsOf(cps[0]) + Expand(cps[1..])
  }

  lemma {:induction false} ExpandAppend(a: seq<CollectedPart>, b: seq<CollectedPart>)
    ensures Expand(a + b) == Expand(a) + Expand(b)
    decreases |a|
  {
    if a != [] {
      assert (a + b)[0] == a[0];
      assert (a + b)[1..] == a[1..] + b;
      ExpandAppend(a[1..], b);
      assert PartsOf(a[0]) + (Expand(a[1..]) + Expand(b)) == (PartsOf(a[0]) + Expand(a[1..])) + Expand(b);
    } else {
      assert a + b == b;
    }
  }

  /** No collected run of characters is empty, and no two runs are next to each other. */
  predicate Canonical(cps: seq<CollectedPart>)
  {
    forall k :: 0 <= k < |cps| && cps[k].Chars? ==> cps[k].chars != [] && (k + 1 < |cps| ==> !cps[k + 1].Chars?)
  }

  lemma PushChars(cps: seq<CollectedPart>, cs: string)
    requires Canonical(cps) && (cps == [] || cps[|cps| - 1].CollectedTag?) && cs != []
    ensures Canonical(cps + [Chars(cs)])
    ensures Expand(cps + [Chars(cs)]) == Expand(cps) + CharParts(cs)
  {
    var r := cps + [Chars(cs)];
    forall k | 0 <= k < |r| && r[k].Chars?
      ensures r[k].chars != [] && (k + 1 < |r| ==> !r[k + 1].Chars?)
    {
      if k < |cps| {
        assert r[k] == cps[k];
        if k + 1 < |cps| {
          assert r[k + 1] == cps[k + 1];
        }
      }
    }
    ExpandAppend(cps, [Chars(cs)]);
    assert Expand([Chars(cs)]) == CharParts(cs);
  }

  lemma PushTag(cps: seq<CollectedPart>, t: string)
    requires Canonical(cps)
    ensures Canonical(cps + [CollectedTag(t)])
    ensures Expand(cps + [CollectedTag(t)]) == Expand(cps) + [TagPart(t)]
  {
    var r := cps + [CollectedTag(t)];
    forall k | 0 <= k < |r| && r[k].Chars?
      ensures r[k].chars != [] && (k + 1 < |r| ==> !r[k + 1].Chars?)
    {
      assert r[k] == cps[k];
      if k + 1 < |cps| {
        assert r[k + 1] == cps[k + 1];
      }
    }
    ExpandAppend(cps, [CollectedTag(t)]);
    assert Expand([CollectedTag(t)]) == [TagPart(t)];
  }

  /** The state collected_parts keeps after reading done: the parts closed so far, canonical and
      ending in a tag, followed by the pending run of plain characters, stand for done. */
  predicate Collecting(cps: seq<CollectedPart>, current: string, done: seq<ParsedPart>)
  {
    Canonical(cps) && (cps == [] || cps[|cps| - 1].CollectedTag?) && Expand(cps) + CharParts(current) == done
  }

  /** A plain character extends the pending run. */
  lemma CollectChar(cps: seq<CollectedPart>, current: string, done: seq<ParsedPart>, c: char)
    requires Collecting(cps, current, done)
    ensures Collecting(cps, current + [c], done + [CharPart(c)])
  {
    CharPartsAppend(current, [c]);
  }

  /** A tag closes the pending run, if any, and is kept after it. */
  lemma CollectTag(cps: seq<CollectedPart>, current: string, done: seq<ParsedPart>, t: string)
    requires Collecting(cps, current, done)
    ensures Collecting(Flush(cps, current) + [CollectedTag(t)], [], done + [TagPart(t)])
  {
    CollectEnd(cps, current, done);
    PushTag(Flush(cps, current), t);
  }

  /** The run still pending at the end is closed too. */
  lemma CollectEnd(cps: seq<CollectedPart>, current: string, done: seq<ParsedPart>)
    requires Collecting(cps, current, done)
    ensures Canonical(Flush(cps, current)) && Expand(Flush(cps, current)) == done
  {
    if current != [] {
      PushChars(cps, current);
    } else {
      assert CharParts(current) == [];
      assert Expand(cps) + [] == Expand(cps);
    }
  }

  /** The closed parts once the pending run, if any, is closed. */
  function Flush(cps: seq<CollectedPart>, current: string): seq<CollectedPart>
  {
    if current != [] then cps + [Chars(current)] else cps
  }

  /** collected_parts: merges each run of plain characters into one part, keeping every tag in place. */
  method CollectedParts(pps: seq<ParsedPart>) returns (cps: seq<CollectedPart>)
    ensures Expand(cps) == pps
    ensures Canonical(cps)
  {
    cps := [];
    var current: string := [];
    for k := 0 to |pps|
      invariant Collecting(cps, current, pps[..k])
    {
      assert pps[..k + 1] == pps[..k] + [pps[k]];
      match pps[k]
      case CharPart(c) =>
        CollectChar(cps, current, pps[..k], c);
        current := current + [c];
      case TagPart(t) =>
        CollectTag(cps, current, pps[..k], t);
        if current != [] {
          cps := cps + [Chars(current)];
          current := [];
        }
        cps := cps + [CollectedTag(t)];
    }
    assert pps[..|pps|] == pps;
    CollectEnd(cps, current, pps);
    if current != [] {
      cps := cps + [Chars(current)];
    }
  }

  predicate StartsWithTag(pps: seq<ParsedPart>)
  {
    pps == [] || pps[0].TagPart?
  }

  lemma CanonicalTail(cps: seq<CollectedPart>)
    requires Canonical(cps) && cps != [] && cps[0].Chars?
    ensures Canonical(cps[1..]) && StartsWithTag(Expand(cps[1..]))
  {
    var tail := cps[1..];
    assert forall k :: 0 <= k < |tail| ==> tail[k] == cps[k + 1];
    if tail != [] {
      assert !tail[0].Chars?;
    }
  }

  /** The number of plain characters a sequence of parsed parts starts with. */
  function LeadingChars(pps: seq<ParsedPart>): nat
  {
    if pps != [] && pps[0].CharPart? then 1 + LeadingChars(pps[1..]) else 0
  }

  lemma {:induction false} LeadingCharsOf(x: string, a: seq<ParsedPart>)
    requires StartsWithTag(a)
    ensures LeadingChars(CharParts(x) + a) == |x|
  {
    if x != [] {
      assert CharParts(x) + a == [CharPart(x[0])] + (CharParts(x[1..]) + a);
      LeadingCharsOf(x[1..], a);
    }
  }

  lemma CharRunUnique(x: string, y: string, a: seq<ParsedPart>, b: seq<ParsedPart>)
    requires CharParts(x) + a == CharParts(y) + b
    requires StartsWithTag(a) && StartsWithTag(b)
    ensures x == y && a == b
  {
    var l, r := CharParts(x) + a, CharParts(y) + b;
    LeadingCharsOf(x, a);
    LeadingCharsOf(y, b);
    assert CharParts(x) == l[..|x|] == r[..|y|] == CharParts(y);
    forall k | 0 <= k < |x|
      ensures x[k] == y[k]
    {
      assert CharParts(x)[k] == CharParts(y)[k];
    }
    assert a == l[|x|..] && b == r[|y|..];
  }

  /** The first parsed part of a canonical collection tells which kind of part comes first. */
  lemma ExpandHead(cps: seq<CollectedPart>)
    requires Canonical(cps) && cps != []
    ensures Expand(cps) != [] && (Expand(cps)[0].TagPart? <==> cps[0].CollectedTag?)
    ensures cps[0].CollectedTag? ==> Expand(cps)[0] == TagPart(cps[0].tag)
  {
    match cps[0]
    case Chars(cs) =>
      assert Expand(cps)[0] == CharParts(cs)[0];
    case CollectedTag(t) =>
  }

  /** The canonical collection of a sequence of parsed parts is unique. */
  lemma {:induction false} CanonicalUnique(a: seq<CollectedPart>, b: seq<CollectedPart>)
    requires Canonical(a) && Canonical(b) && Expand(a) == Expand(b)
    ensures a == b
    decreases |a|
  {
    if a != [] {
      ExpandHead(a);
    }
    if b != [] {
      ExpandHead(b);
    }
    if a != [] && b != [] {
      match a[0]
      case CollectedTag(t) =>
        assert b[0] == CollectedTag(t);
        assert Expand(a[1..]) == Expand(a)[1..] && Expand(b[1..]) == Expand(b)[1..];
        assert Canonical(a[1..]) && Canonical(b[1..]);
        CanonicalUnique(a[1..], b[1..]);
        assert a == [a[0]] + a[1..] && b == [b[0]] + b[1..];
      case Chars(x) =>
        var y := b[0].chars;
        CanonicalTail(a);
        CanonicalTail(b);
        CharRunUnique(x, y, Expand(a[1..]), Expand(b[1..]));
        CanonicalUnique(a[1..], b[1..]);
        assert a == [a[0]] + a[1..] && b == [b[0]] + b[1..];
    }
  }

  /** text_parts: each collected run of characters becomes a string part, each tag a tag part. */
  function TextParts(cps: seq<CollectedPart>): (r: seq<TextPart>)
    ensures |r| == |cps|
  {
    if cps == [] then []
    else
      [match cps[0] case Chars(cs) => Str(cs) case CollectedTag(t) => TextTag(t)] + TextParts(cps[1..])
  }

  // ---------------------------------------------------------------------------------------------
  // Tags in text order
  // ---------------------------------------------------------------------------------------------

  /** The tags among parsed parts, in order. */
  function PartTags(pps: seq<ParsedPart>): seq<string>
  {
    if pps == [] then [] else (if pps[0].TagPart? then [pps[0].tag] else []) + PartTags(pps[1..])
  }

  /** The filter_map of find_tags: the tags among text parts, in order. */
  function TextTags(tps: seq<TextPart>): seq<string>
  {
    if tps == [] then [] else (if tps[0].TextTag? then [tps[0].tag] else []) + TextTags(tps[1..])
  }

  /** Every tag of a text in the order the scan meets it, repeats included. */
  function TagList(s: string): seq<string>
  {
    PartTags(ParsedParts(s, 0))
  }

  lemma {:induction false} PartTagsAppend(a: seq<ParsedPart>, b: seq<ParsedPart>)
    ensures PartTags(a + b) == PartTags(a) + PartTags(b)
    decreases |a|
  {
    if a == [] {
      assert a + b == b;
    } else {
      assert (a + b)[0] == a[0] && (a + b)[1..] == a[1..] + b;
      PartTagsAppend(a[1..], b);
    }
  }

  lemma {:induction false} CharPartsHaveNoTags(cs: string)
    ensures PartTags(CharParts(cs)) == []
  {
    if cs != [] {
      CharPartsHaveNoTags(cs[1..]);
    }
  }

  /** Collecting and converting the parts keeps the tags and their order. */
  lemma {:induction false} TextTagsOfCollected(cps: seq<CollectedPart>)
    ensures TextTags(TextParts(cps)) == PartTags(Expand(cps))
  {
    if cps != [] {
      TextTagsOfCollected(cps[1..]);
      PartTagsAppend(PartsOf(cps[0]), Expand(cps[1..]));
      match cps[0]
      case Chars(cs) =>
        CharPartsHaveNoTags(cs);
      case CollectedTag(t) =>
    }
  }

  lemma {:induction false} PartsTagsNonEmpty(s: string, i: nat)
    requires i <= |s|
    ensures forall t :: t in PartTags(ParsedParts(s, i)) ==> t != []
    decreases |s| - i
  {
    if i < |s| {
      var j := CharOrHash(s, i).value.1;
      PartsTagsNonEmpty(s, j);
      PartTagsAppend([CharOrHash(s, i).value.0], ParsedParts(s, j));
    }
  }

  /** Whitespace added at the end of a text brings no tag and takes none away. */
  lemma TagsIgnoreTrailingWhitespace(s: string, w: string)
    requires AllWhitespace(w)
    ensures TagList(s + w) == TagList(s)
  {
    ExtendParts(s, w, 0);
    PartTagsAppend(ParsedParts(s, 0), CharParts(w));
    CharPartsHaveNoTags(w);
  }

  // ---------------------------------------------------------------------------------------------
  // Sorting and deduplication
  // ---------------------------------------------------------------------------------------------

  predicate StrLessEq(a: string, b: string)
  {
    a == b || StrLess(a, b)
  }

  predicate Sorted(xs: seq<string>)
  {
    forall i, j :: 0 <= i < j < |xs| ==> StrLessEq(xs[i], xs[j])
  }

  predicate StrictlySorted(xs: seq<string>)
  {
    forall i, j :: 0 <= i < j < |xs| ==> StrLess(xs[i], xs[j])
  }

  lemma StrLessEqTransitive(a: string, b: string, c: string)
    requires StrLessEq(a, b) && StrLessEq(b, c)
    ensures StrLessEq(a, c)
  {
    if a != b && b != c {
      StrLessTransitive(a, b, c);
    }
  }

  lemma SortedCons(y: string, ys: seq<string>)
    requires Sorted(ys) && forall z :: z in ys ==> StrLessEq(y, z)
    ensures Sorted([y] + ys)
  {
    var r := [y] + ys;
    forall i, j | 0 <= i < j < |r|
      ensures StrLessEq(r[i], r[j])
    {
      assert r[j] == ys[j - 1];
      if i > 0 {
        assert r[i] == ys[i - 1];
      }
    }
  }

  /** Inserts x into a sorted sequence before the first element not below it. */
  function Insert(x: string, xs: seq<string>): (r: seq<string>)
    requires Sorted(xs)
    ensures Sorted(r) && multiset(r) == multiset(xs) + multiset{x}
  {
    if xs == [] || !StrLess(xs[0], x) then
      forall z | z in xs
        ensures StrLessEq(x, z)
      {
        StrLessTotal(x, xs[0]);
        var j :| 0 <= j < |xs| && xs[j] == z;
        assert StrLessEq(xs[0], xs[j]);
        StrLessEqTransitive(x, xs[0], z);
      }
      SortedCons(x, xs);
      [x] + xs
    else
      var tail := Insert(x, xs[1..]);
      assert xs == [xs[0]] + xs[1..];
      forall z | z in tail
        ensures StrLessEq(xs[0], z)
      {
        assert z in multiset(tail);
        if z != x {
          var j :| 0 <= j < |xs[1..]| && xs[1..][j] == z;
          assert xs[j + 1] == z;
        }
      }
      SortedCons(xs[0], tail);
      [xs[0]] + tail
  }

  /** tags.sort(): the library sort, here as insertion of each element into a sorted prefix. */
  method Sort(xs: seq<string>) returns (r: seq<string>)
    ensures Sorted(r) && multiset(r) == multiset(xs)
  {
    r := [];
    for k := 0 to |xs|
      invariant Sorted(r) && multiset(r) == multiset(xs[..k])
    {
      assert xs[..k + 1] == xs[..k] + [xs[k]];
      r := Insert(xs[k], r);
    }
    assert xs[..|xs|] == xs;
  }

  /** tags.dedup(): drops every element equal to the one kept just before it. */
  method Dedup(xs: seq<string>) returns (r: seq<string>)
    ensures forall x :: x in r <==> x in xs
    ensures forall k :: 0 <= k < |r| - 1 ==> r[k] != r[k + 1]
    ensures Sorted(xs) ==> StrictlySorted(r)
  {
    r := [];
    for k := 0 to |xs|
      invariant forall x :: x in r <==> x in xs[..k]
      invariant forall m :: 0 <= m < |r| - 1 ==> r[m] != r[m + 1]
      invariant k > 0 ==> r != [] && r[|r| - 1] == xs[k - 1]
      invariant k == 0 ==> r == []
      invariant Sorted(xs) ==> StrictlySorted(r)
    {
      assert xs[..k + 1] == xs[..k] + [xs[k]];
      if r == [] || r[|r| - 1] != xs[k] {
        if Sorted(xs) && r != [] {
          assert StrLessEq(xs[k - 1], xs[k]);
          AppendStrictlySorted(r, xs[k]);
        }
        r := r + [xs[k]];
      }
    }
    assert xs[..|xs|] == xs;
  }

  lemma AppendStrictlySorted(r: seq<string>, x: string)
    requires StrictlySorted(r) && r != [] && StrLess(r[|r| - 1], x)
    ensures StrictlySorted(r + [x])
  {
    var q := r + [x];
    forall i, j | 0 <= i < j < |q|
      ensures StrLess(q[i], q[j])
    {
      if j == |r| && i < |r| - 1 {
        StrLessTransitive(r[i], r[|r| - 1], x);
      }
    }
  }

  lemma StrLessEqAntisymmetric(a: string, b: string)
    requires StrLessEq(a, b) && StrLessEq(b, a)
    ensures a == b
  {
    if a != b {
      StrLessTransitive(a, b, a);
      StrLessIrreflexive(a);
    }
  }

  lemma SortedHeadLeast(xs: seq<string>, x: string)
    requires Sorted(xs) && x in xs
    ensures StrLessEq(xs[0], x)
  {
    var m :| 0 <= m < |xs| && xs[m] == x;
    if m > 0 {
      assert StrLessEq(xs[0], xs[m]);
    }
  }

  lemma StrictlySortedTail(xs: seq<string>)
    requires StrictlySorted(xs) && xs != []
    ensures StrictlySorted(xs[1..])
    ensures forall x :: x in xs[1..] <==> (x in xs && x != xs[0])
  {
    forall x | x in xs[1..]
      ensures x != xs[0]
    {
      var m :| 0 <= m < |xs[1..]| && xs[1..][m] == x;
      assert StrLess(xs[0], xs[m + 1]);
      StrLessIrreflexive(xs[0]);
    }
    assert xs == [xs[0]] + xs[1..];
  }

  /** Two strictly ascending sequences with the same elements are the same sequence. */
  lemma {:induction false} StrictlySortedUnique(a: seq<string>, b: seq<string>)
    requires StrictlySorted(a) && StrictlySorted(b)
    requires forall x :: x in a <==> x in b
    ensures a == b
    decreases |a|
  {
    if a != [] {
      assert a[0] in a;
    }
    if b != [] {
      assert b[0] in b;
    }
    if a != [] && b != [] {
      SortedHeadLeast(a, b[0]);
      SortedHeadLeast(b, a[0]);
      StrLessEqAntisymmetric(a[0], b[0]);
      StrictlySortedTail(a);
      StrictlySortedTail(b);
      StrictlySortedUnique(a[1..], b[1..]);
      assert a == [a[0]] + a[1..] && b == [b[0]] + b[1..];
    }
  }

  /** Adds x to a strictly ascending sequence, unless it is there already. */
  function InsertUnique(x: string, ys: seq<string>): (r: seq<string>)
    requires StrictlySorted(ys)
    ensures StrictlySorted(r)
    ensures forall z :: z in r <==> z == x || z in ys
    decreases |ys|
  {
    if ys == [] then [x]
    else if x == ys[0] then ys
    else if StrLess(x, ys[0]) then
      forall z | z in ys
        ensures StrLess(x, z)
      {
        SortedHeadLeast(ys, z);
        if z != ys[0] {
          StrLessTransitive(x, ys[0], z);
        }
      }
      StrictCons(x, ys);
      [x] + ys
    else
      StrLessTotal(x, ys[0]);
      StrictlySortedTail(ys);
      var tail := InsertUnique(x, ys[1..]);
      forall z | z in tail
        ensures StrLess(ys[0], z)
      {
        if z != x {
          var m :| 0 <= m < |ys[1..]| && ys[1..][m] == z;
          assert ys[m + 1] == z;
        }
      }
      StrictCons(ys[0], tail);
      assert ys == [ys[0]] + ys[1..];
      [ys[0]] + tail
  }

  lemma StrictCons(y: string, ys: seq<string>)
    requires StrictlySorted(ys) && forall z :: z in ys ==> StrLess(y, z)
    ensures StrictlySorted([y] + ys)
  {
    var r := [y] + ys;
    forall i, j | 0 <= i < j < |r|
      ensures StrLess(r[i], r[j])
    {
      assert r[j] == ys[j - 1];
      if i > 0 {
        assert r[i] == ys[i - 1];
      }
    }
  }

  /** The distinct elements of xs in ascending order. */
  function SortedUnique(xs: seq<string>): (r: seq<string>)
    ensures StrictlySorted(r)
    ensures forall x :: x in r <==> x in xs
  {
    if xs == [] then []
    else
      var init := xs[..|xs| - 1];
      assert xs == init + [xs[|xs| - 1]];
      InsertUnique(xs[|xs| - 1], SortedUnique(init))
  }

  /** What find_tags returns for a text: its distinct tags in ascending order. */
  function Tags(s: string): seq<string>
  {
    SortedUnique(TagList(s))
  }

  /** find_tags: the tags of the text parts, sorted and then deduplicated. The parse cannot fail. */
  method FindTags(s: string) returns (tags: seq<string>)
    ensures StrictlySorted(tags)
    ensures forall t :: t in tags <==> t in TagList(s)
    ensures tags == Tags(s)
  {
    var pps := ParsedParts(s, 0);
    var cps := CollectedParts(pps);
    var parts := TextParts(cps);
    var found := TextTags(parts);
    TextTagsOfCollected(cps);
    var sorted := Sort(found);
    assert forall t :: t in sorted <==> t in found by {
      forall t
        ensures t in sorted <==> t in found
      {
        assert t in sorted <==> t in multiset(sorted);
        assert t in found <==> t in multiset(found);
      }
    }
    tags := Dedup(sorted);
    StrictlySortedUnique(tags, Tags(s));
  }

  /** Every tag find_tags reports is a non-empty string. */
  lemma TagsNonEmpty(s: string)
    ensures forall t :: t in Tags(s) ==> t != []
  {
    PartsTagsNonEmpty(s, 0);
  }

  /** Trimming trailing whitespace and ending the text with a newline does not change its tags. */
  lemma TagsOfNormalised(c: string)
    ensures Tags(TrimEnd(c) + "\n") == Tags(c)
  {
    var r := TrimEnd(c);
    assert c == r + c[|r|..];
    TagsIgnoreTrailingWhitespace(r, c[|r|..]);
    TagsIgnoreTrailingWhitespace(r, "\n");
  }
}
