/** The message processor: masks every whole-word, case-insensitive occurrence
    of a forbidden word and annotates the message with metadata and a
    processing time.

    The regular expression `\b(tonto|idiota)\b` is modelled by a left-to-right
    scan. At each position the scan either finds a bounded occurrence of a
    forbidden word (masks it and resumes after it) or copies one character,
    which is how `findall` and `sub` walk the text. */
module Processor {
  import opened Text
  import opened Models

  /** The fixed forbidden words, set when the service is built. */
  const BadWords: set<string> := {"tonto", "idiota"}

  /** The text that replaces each forbidden word. */
  const Mask: string := "***"

  predicate LowerLetters(w: string) {
    forall k :: 0 <= k < |w| ==> 'a' <= w[k] <= 'z'
  }

  lemma BadWordsShape(w: string)
    requires w in BadWords
    ensures LowerLetters(w) && |w| >= 5 && Lower(w) == w
  {
    assert w == "tonto" || w == "idiota";
  }

  /** `w` occurs at `i` in `s`, ignoring ASCII case. */
  predicate FoldedAt(s: string, i: nat, w: string) {
    i + |w| <= |s| && forall k :: 0 <= k < |w| ==> LowerChar(s[i + k]) == w[k]
  }

  /** `\b` at position `k`: a word character on exactly one side of `k`. */
  predicate RegexBoundary(s: string, k: nat)
    requires k <= |s|
  {
    (k > 0 && IsWordChar(s[k - 1])) != (k < |s| && IsWordChar(s[k]))
  }

  /** `\bw\b` matches at `i`. */
  predicate WholeWordAt(s: string, i: nat, w: string) {
    FoldedAt(s, i, w) && RegexBoundary(s, i) && RegexBoundary(s, i + |w|)
  }

  /** Every character of a folded occurrence of a forbidden word is a word character. */
  lemma FoldedIsWord(s: string, i: nat, w: string)
    requires w in BadWords && FoldedAt(s, i, w)
    ensures forall k :: i <= k < i + |w| ==> IsWordChar(s[k])
  {
    BadWordsShape(w);
    forall k | i <= k < i + |w|
      ensures IsWordChar(s[k])
    {
      assert LowerChar(s[i + (k - i)]) == w[k - i];
      LowerLetterIsWordChar(s[k]);
    }
  }

  /** The forbidden word the pattern matches at `i`, if any. */
  function MatchAt(s: string, i: nat): (r: Option<string>)
    requires i <= |s|
    ensures r.Some? ==> i + |r.value| <= |s| && |r.value| >= 5
  {
    if WholeWordAt(s, i, "idiota") then Some("idiota")
    else if WholeWordAt(s, i, "tonto") then Some("tonto")
    else None
  }

  /** What the pattern matches at `i`: a forbidden word with a whole-word
      occurrence there, and that word whenever there is one. The words begin
      with different letters, so at most one of them can match at a position
      and the order of the alternatives does not matter. */
  lemma MatchAtSpec(s: string, i: nat)
    requires i <= |s|
    ensures MatchAt(s, i).Some? ==> MatchAt(s, i).value in BadWords && WholeWordAt(s, i, MatchAt(s, i).value)
    ensures forall w :: w in BadWords && WholeWordAt(s, i, w) ==> MatchAt(s, i) == Some(w)
  {
    assert forall w :: w in BadWords ==> w == "idiota" || w == "tonto";
    assert "idiota"[0] == 'i' && "tonto"[0] == 't';
    assert FoldedAt(s, i, "idiota") ==> LowerChar(s[i + 0]) == "idiota"[0];
    assert FoldedAt(s, i, "tonto") ==> LowerChar(s[i + 0]) == "tonto"[0];
  }

  /** No match starts right after a word character: `\b` fails there. */
  lemma NoMatchAfterWordChar(s: string, k: nat)
    requires 0 < k <= |s| && IsWordChar(s[k - 1])
    ensures MatchAt(s, k).None?
  {
    MatchAtSpec(s, k);
    var r := MatchAt(s, k);
    if r.Some? {
      FoldedIsWord(s, k, r.value);
      assert false;
    }
  }

  /** No match starts at a character that is not a word character. */
  lemma NoMatchAtNonWordChar(s: string, k: nat)
    requires k < |s| && !IsWordChar(s[k])
    ensures MatchAt(s, k).None?
  {
    MatchAtSpec(s, k);
    var r := MatchAt(s, k);
    if r.Some? {
      FoldedIsWord(s, k, r.value);
      assert false;
    }
  }

  /** `pattern.sub("***", s[i..])`, scanning in the context of the whole of `s`. */
  function CensorFrom(s: string, i: nat): string
    requires i <= |s|
    decreases |s| - i
  {
    if i == |s| then []
    else match MatchAt(s, i)
      case Some(w) => Mask + CensorFrom(s, i + |w|)
      case None => [s[i]] + CensorFrom(s, i + 1)
  }

  /** The lower-cased words of `pattern.findall(s[i..])`. */
  function FoundFrom(s: string, i: nat): set<string>
    requires i <= |s|
    decreases |s| - i
  {
    if i == |s| then {}
    else match MatchAt(s, i)
      case Some(w) => {w} + FoundFrom(s, i + |w|)
      case None => FoundFrom(s, i + 1)
  }

  function Censor(s: string): string {
    CensorFrom(s, 0)
  }

  function FoundWords(s: string): set<string> {
    FoundFrom(s, 0)
  }

  /** `w` has a whole-word occurrence at or after `i`. */
  predicate OccursFrom(s: string, i: nat, w: string) {
    exists j :: i <= j <= |s| && WholeWordAt(s, j, w)
  }

  /** The found set is exactly the forbidden words that have a whole-word
      occurrence, however many times each occurs: whole-word occurrences
      cannot overlap, so the scan never steps over one. */
  lemma {:induction false} FoundFromExact(s: string, i: nat, w: string)
    requires i <= |s|
    ensures w in FoundFrom(s, i) <==> w in BadWords && OccursFrom(s, i, w)
    decreases |s| - i
  {
    if i == |s| {
      if w in BadWords && OccursFrom(s, i, w) {
        assert false;
      }
    } else {
      MatchAtSpec(s, i);
      match MatchAt(s, i)
      case Some(m) =>
        FoundFromExact(s, i + |m|, w);
        FoldedIsWord(s, i, m);
        if w in BadWords && OccursFrom(s, i, w) {
          var j :| i <= j <= |s| && WholeWordAt(s, j, w);
          if j == i {
            assert w == m;
          } else if j < i + |m| {
            assert false;
          } else {
            assert OccursFrom(s, i + |m|, w);
          }
        }
      case None =>
        FoundFromExact(s, i + 1, w);
        if w in BadWords && OccursFrom(s, i, w) {
          var j :| i <= j <= |s| && WholeWordAt(s, j, w);
          assert j != i;
          assert OccursFrom(s, i + 1, w);
        }
    }
  }

  /** Only forbidden words are ever found. */
  lemma {:induction false} FoundFromForbidden(s: string, i: nat)
    requires i <= |s|
    ensures FoundFrom(s, i) <= BadWords
    decreases |s| - i
  {
    if i < |s| {
      MatchAtSpec(s, i);
      match MatchAt(s, i)
      case Some(w) => FoundFromForbidden(s, i + |w|);
      case None => FoundFromForbidden(s, i + 1);
    }
  }

  lemma FoundWordsExact(s: string, w: string)
    ensures w in FoundWords(s) <==> w in BadWords && exists j :: 0 <= j <= |s| && WholeWordAt(s, j, w)
  {
    FoundFromExact(s, 0, w);
  }

  /** Where no match starts, the scan copies the text unchanged. */
  lemma {:induction false} CopyUnmatched(s: string, i: nat, e: nat)
    requires i <= e <= |s|
    requires forall k :: i <= k < e ==> MatchAt(s, k).None?
    ensures CensorFrom(s, i) == s[i..e] + CensorFrom(s, e)
    decreases e - i
  {
    if i < e {
      CopyUnmatched(s, i + 1, e);
      var c := CensorFrom(s, e);
      calc {
        CensorFrom(s, i);
        [s[i]] + CensorFrom(s, i + 1);
        [s[i]] + (s[i + 1..e] + c);
        ([s[i]] + s[i + 1..e]) + c;
        { assert [s[i]] + s[i + 1..e] == s[i..e]; }
        s[i..e] + c;
      }
    }
  }

  /** Each mask shortens the text (a forbidden word is longer than the mask),
      so the censored text is no longer than the original, and strictly
      shorter once anything is found. */
  lemma {:induction false} CensorFromLength(s: string, i: nat)
    requires i <= |s|
    ensures |CensorFrom(s, i)| <= |s| - i
    ensures FoundFrom(s, i) != {} ==> |CensorFrom(s, i)| < |s| - i
    decreases |s| - i
  {
    if i < |s| {
      match MatchAt(s, i)
      case Some(w) => CensorFromLength(s, i + |w|);
      case None => CensorFromLength(s, i + 1);
    }
  }

  /** The text comes back unchanged exactly when no forbidden word is found. */
  lemma CensorUnchangedIffNothingFound(s: string)
    ensures Censor(s) == s <==> FoundWords(s) == {}
  {
    CensorFromLength(s, 0);
    if FoundWords(s) == {} {
      forall k | 0 <= k < |s|
        ensures MatchAt(s, k).None?
      {
        MatchAtSpec(s, k);
        var r := MatchAt(s, k);
        if r.Some? {
          FoundWordsExact(s, r.value);
          assert false;
        }
      }
      CopyUnmatched(s, 0, |s|);
      assert s[0..|s|] == s;
    }
  }

  // ---------------------------------------------------------------------
  // A reference definition by words: split the text into maximal runs of
  // word characters and single other characters, and mask every run that
  // is a forbidden word up to case.

  /** The end of the run of word characters that starts at `i`. */
  function WordRunEnd(s: string, i: nat): (e: nat)
    requires i <= |s|
    ensures i <= e <= |s|
    ensures forall k :: i <= k < e ==> IsWordChar(s[k])
    ensures e == |s| || !IsWordChar(s[e])
    decreases |s| - i
  {
    if i < |s| && IsWordChar(s[i]) then WordRunEnd(s, i + 1) else i
  }

  /** `s[i..]` split into maximal word runs and single non-word characters. */
  function TokensFrom(s: string, i: nat): seq<string>
    requires i <= |s|
    decreases |s| - i
  {
    if i == |s| then []
    else if IsWordChar(s[i]) then [s[i..WordRunEnd(s, i)]] + TokensFrom(s, WordRunEnd(s, i))
    else [[s[i]]] + TokensFrom(s, i + 1)
  }

  function Concat(ts: seq<string>): string {
    if ts == [] then [] else ts[0] + Concat(ts[1..])
  }

  /** Splitting loses nothing. */
  lemma {:induction false} TokensCover(s: string, i: nat)
    requires i <= |s|
    ensures Concat(TokensFrom(s, i)) == s[i..]
    decreases |s| - i
  {
    if i < |s| {
      var e := if IsWordChar(s[i]) then WordRunEnd(s, i) else i + 1;
      TokensCover(s, e);
      assert s[i..] == s[i..e] + s[e..];
    }
  }

  function MaskToken(t: string): string {
    if Lower(t) in BadWords then Mask else t
  }

  function MaskTokens(ts: seq<string>): string {
    if ts == [] then [] else MaskToken(ts[0]) + MaskTokens(ts[1..])
  }

  /** A position where a token can begin: the end, or a place where the
      previous or the current character is not a word character. */
  predicate TokenStart(s: string, i: nat)
    requires i <= |s|
  {
    i == 0 || i == |s| || !IsWordChar(s[i - 1]) || !IsWordChar(s[i])
  }

  /** A run of word characters ends wherever the next character is not one. */
  lemma {:induction false} WordRunEndAt(s: string, i: nat, j: nat)
    requires i <= j <= |s|
    requires forall k :: i <= k < j ==> IsWordChar(s[k])
    requires j == |s| || !IsWordChar(s[j])
    ensures WordRunEnd(s, i) == j
    decreases j - i
  {
    if i < j {
      WordRunEndAt(s, i + 1, j);
    }
  }

  /** A whole-word match is a whole word run, which spells the word. */
  lemma MatchIsRun(s: string, i: nat, w: string)
    requires w in BadWords && WholeWordAt(s, i, w)
    ensures WordRunEnd(s, i) == i + |w|
    ensures Lower(s[i..i + |w|]) == w
  {
    FoldedIsWord(s, i, w);
    BadWordsShape(w);
    WordRunEndAt(s, i, i + |w|);
    var t := Lower(s[i..i + |w|]);
    forall k | 0 <= k < |w|
      ensures t[k] == w[k]
    {
      assert s[i..i + |w|][k] == s[i + k];
    }
  }

  /** A word run at a token start that spells a forbidden word is matched. */
  lemma RunIsMatch(s: string, i: nat)
    requires i < |s| && TokenStart(s, i) && IsWordChar(s[i])
    requires Lower(s[i..WordRunEnd(s, i)]) in BadWords
    ensures MatchAt(s, i) == Some(Lower(s[i..WordRunEnd(s, i)]))
  {
    var e := WordRunEnd(s, i);
    var w := Lower(s[i..e]);
    forall k | 0 <= k < |w|
      ensures LowerChar(s[i + k]) == w[k]
    {
      assert s[i..e][k] == s[i + k];
    }
    assert FoldedAt(s, i, w);
    assert WholeWordAt(s, i, w);
    MatchAtSpec(s, i);
  }

  /** A word run that is no forbidden word is not matched where it starts. */
  lemma RunNotMatched(s: string, i: nat)
    requires i < |s|
    requires Lower(s[i..WordRunEnd(s, i)]) !in BadWords
    ensures MatchAt(s, i).None?
  {
    MatchAtSpec(s, i);
    if MatchAt(s, i).Some? {
      MatchIsRun(s, i, MatchAt(s, i).value);
      assert false;
    }
  }

  /** A word run that is no forbidden word is copied. */
  lemma RunIsCopied(s: string, i: nat)
    requires i < |s| && IsWordChar(s[i])
    requires Lower(s[i..WordRunEnd(s, i)]) !in BadWords
    ensures CensorFrom(s, i) == s[i..WordRunEnd(s, i)] + CensorFrom(s, WordRunEnd(s, i))
  {
    var e := WordRunEnd(s, i);
    RunNotMatched(s, i);
    forall k | i < k < e
      ensures MatchAt(s, k).None?
    {
      NoMatchAfterWordChar(s, k);
    }
    CopyUnmatched(s, i, e);
  }

  /** One token step of the scan: the token is masked or copied, and the scan
      goes on after it. */
  lemma TokenStep(s: string, i: nat)
    requires i < |s| && TokenStart(s, i)
    ensures var e := if IsWordChar(s[i]) then WordRunEnd(s, i) else i + 1;
            CensorFrom(s, i) == MaskToken(s[i..e]) + CensorFrom(s, e)
  {
    if IsWordChar(s[i]) {
      var e := WordRunEnd(s, i);
      if Lower(s[i..e]) in BadWords {
        RunIsMatch(s, i);
      } else {
        RunIsCopied(s, i);
      }
    } else {
      NoMatchAtNonWordChar(s, i);
      assert s[i..i + 1] == [s[i]];
      assert Lower([s[i]]) !in BadWords by {
        assert |Lower([s[i]])| == 1;
      }
    }
  }

  lemma {:induction false} CensorFromTokens(s: string, i: nat)
    requires i <= |s| && TokenStart(s, i)
    ensures CensorFrom(s, i) == MaskTokens(TokensFrom(s, i))
    decreases |s| - i
  {
    if i < |s| {
      var e := if IsWordChar(s[i]) then WordRunEnd(s, i) else i + 1;
      TokenStep(s, i);
      CensorFromTokens(s, e);
      if !IsWordChar(s[i]) {
        assert s[i..e] == [s[i]];
      }
      assert TokensFrom(s, i) == [s[i..e]] + TokensFrom(s, e);
    }
  }

  /** The scan masks exactly the maximal word runs that spell a forbidden
      word up to case; occurrences inside longer words and all other
      characters are left as they are. */
  lemma CensorMasksWords(s: string)
    ensures Censor(s) == MaskTokens(TokensFrom(s, 0))
    ensures Concat(TokensFrom(s, 0)) == s
  {
    CensorFromTokens(s, 0);
    TokensCover(s, 0);
  }

  // ---------------------------------------------------------------------
  // Metadata

  /** Python's `<` on strings: code-point lexicographic order. */
  predicate StrLess(a: string, b: string) {
    if a == [] then b != []
    else b != [] && (a[0] < b[0] || (a[0] == b[0] && StrLess(a[1..], b[1..])))
  }

  predicate StrictlySorted(ws: seq<string>) {
    forall i, j :: 0 <= i < j < |ws| ==> StrLess(ws[i], ws[j])
  }

  /** `sorted(list(found))` for a set of forbidden words: the words are
      taken in their sorted order and kept when found. */
  function SortedFound(found: set<string>): (ws: seq<string>)
    requires found <= BadWords
    ensures StrictlySorted(ws)
    ensures forall w :: w in ws <==> w in found
    ensures forall w :: w in ws ==> Lower(w) == w
  {
    assert StrLess("idiota", "tonto");
    var ws := (if "idiota" in found then ["idiota"] else []) + (if "tonto" in found then ["tonto"] else []);
    assert found == set w | w in ws;
    assert forall w :: w in ws ==> w in BadWords;
    forall w | w in ws ensures Lower(w) == w { BadWordsShape(w); }
    ws
  }

  /** The text `process_message` works on: the content, or the empty text
      when the record has none. */
  function OriginalContent(data: MessageData): string {
    match data.content
    case Some(c) => c
    case None => ""
  }

  /** `process_message` with `now` standing for the current UTC time. The
      result is a copy of the record with the censored content, the metadata
      of the original content and the processing time; nothing else changes. */
  function ProcessMessage(data: MessageData, now: Instant): (r: MessageData)
    ensures r.messageId == data.messageId && r.sessionId == data.sessionId
    ensures r.timestamp == data.timestamp && r.sender == data.sender
    ensures r.content == Some(Censor(OriginalContent(data)))
    ensures r.metadata.Some? && r.metadata.value.length == |OriginalContent(data)|
    ensures r.processedAt == DateTime(now)
  {
    var original := OriginalContent(data);
    FoundFromForbidden(original, 0);
    var metadata := Metadata(|original|, SortedFound(FoundWords(original)));
    data.(content := Some(Censor(original)), metadata := Some(metadata), processedAt := DateTime(now))
  }

  /** The metadata's word list is sorted, free of duplicates and lower-case,
      and holds exactly the forbidden words that occur as whole words in the
      original content. When none does, the content is unchanged and the
      list is empty. */
  lemma ProcessedBadWords(data: MessageData, now: Instant)
    ensures var ws := ProcessMessage(data, now).metadata.value.badWords;
            var s := OriginalContent(data);
            && StrictlySorted(ws)
            && (forall w :: w in ws ==> Lower(w) == w)
            && (forall w :: w in ws <==> w in BadWords && exists j :: 0 <= j <= |s| && WholeWordAt(s, j, w))
            && (ws == [] <==> ProcessMessage(data, now).content == Some(s))
  {
    var s := OriginalContent(data);
    forall w ensures w in FoundWords(s) <==> w in BadWords && exists j :: 0 <= j <= |s| && WholeWordAt(s, j, w) {
      FoundWordsExact(s, w);
    }
    CensorUnchangedIffNothingFound(s);
  }

  // ---------------------------------------------------------------------
  // The greeting with two insults

  predicate IsGreeting(s: string) {
    s == "Hola tonto idiota"
  }

  lemma GreetingLayout(s: string)
    requires IsGreeting(s)
    ensures |s| == 17
    ensures s[0..4] == "Hola" && s[5..10] == "tonto" && s[11..17] == "idiota"
    ensures s[4..5] == " " && s[10..11] == " "
    ensures IsWordChar(s[0]) && !IsWordChar(s[4]) && IsWordChar(s[5]) && !IsWordChar(s[10]) && IsWordChar(s[11])
  {
  }

  /** Both forbidden words occur in the greeting as whole words. */
  lemma GreetingFound(s: string)
    requires IsGreeting(s)
    ensures FoundWords(s) == BadWords
  {
    GreetingLayout(s);
    assert WholeWordAt(s, 5, "tonto") by {
      assert forall k :: 0 <= k < 5 ==> s[5 + k] == "tonto"[k];
    }
    assert WholeWordAt(s, 11, "idiota") by {
      assert forall k :: 0 <= k < 6 ==> s[11 + k] == "idiota"[k];
    }
    FoundFromForbidden(s, 0);
    FoundWordsExact(s, "tonto");
    FoundWordsExact(s, "idiota");
  }

  /** The metadata of the greeting: seventeen characters, and both words in
      sorted order. */
  lemma ProcessGreeting(data: MessageData, now: Instant)
    requires data.content.Some? && IsGreeting(data.content.value)
    ensures ProcessMessage(data, now).metadata == Some(Metadata(17, ["idiota", "tonto"]))
  {
    GreetingFound(data.content.value);
    assert SortedFound(BadWords) == ["idiota", "tonto"];
  }
}
