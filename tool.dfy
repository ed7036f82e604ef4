/** The text post-processing of tool.py: `cleanup_text`, the list
    comprehension that turns the language model's reply into questions in
    `generate_questions`, and the last step of `generate_srs`. The model
    calls themselves are not modelled: their reply is a parameter. */
module Tool {
  import opened PyStr

  // ---------------------------------------------------------------------
  // cleanup_text

  /** The two characters `cleanup_text` deletes. */
  predicate IsMarkdownArtifact(c: char) {
    c == '*' || c == '#'
  }

  /** `cleanup_text(text)`: first every `*` is replaced by nothing, then
      every `#`. No artifact survives. */
  function CleanupText(text: string): (r: string)
    ensures '*' !in r && '#' !in r
  {
    RemoveAll(RemoveAll(text, '*'), '#')
  }

  /** Only the artifacts are deleted: every other character occurs in the
      result as often as in the input, and the length drops by the number
      of artifacts. */
  lemma CleanupCounts(text: string)
    ensures |CleanupText(text)| == |text| - multiset(text)['*'] - multiset(text)['#']
    ensures forall c :: !IsMarkdownArtifact(c) ==> multiset(CleanupText(text))[c] == multiset(text)[c]
  {
    RemoveAllCounts(text, '*');
    RemoveAllCounts(RemoveAll(text, '*'), '#');
  }

  /** Reference definition: one left-to-right pass that keeps exactly the
      characters that are not artifacts. */
  function KeepPlain(s: string): string {
    if s == [] then []
    else (if IsMarkdownArtifact(s[0]) then [] else [s[0]]) + KeepPlain(s[1..])
  }

  /** The two chained replacements are the one-pass filter: the result is
      the input with the artifacts taken out and everything else kept in
      its original order. */
  lemma {:induction false} CleanupIsFilter(text: string)
    ensures CleanupText(text) == KeepPlain(text)
  {
    if text != [] {
      var c := text[0];
      var t := text[1..];
      var first := if c == '*' then [] else [c];
      assert RemoveAll(text, '*') == first + RemoveAll(t, '*');
      RemoveAllConcat(first, RemoveAll(t, '*'), '#');
      assert RemoveAll(first, '#') == (if IsMarkdownArtifact(c) then [] else [c]);
      CleanupIsFilter(t);
    }
  }

  /** Cleaning distributes over concatenation, so the text is cleaned
      character by character, independently of its neighbours. */
  lemma CleanupConcat(a: string, b: string)
    ensures CleanupText(a + b) == CleanupText(a) + CleanupText(b)
  {
    RemoveAllConcat(a, b, '*');
    RemoveAllConcat(RemoveAll(a, '*'), RemoveAll(b, '*'), '#');
  }

  /** Cleaning twice is cleaning once. */
  lemma CleanupIdempotent(text: string)
    ensures CleanupText(CleanupText(text)) == CleanupText(text)
  {
    CleanupUnchangedIff(CleanupText(text));
  }

  /** A text is left exactly as it is if and only if it holds neither `*`
      nor `#`; any other markdown character, `_` or a backtick for one, does
      not matter. */
  lemma CleanupUnchangedIff(text: string)
    ensures CleanupText(text) == text <==> '*' !in text && '#' !in text
  {
    if '*' !in text && '#' !in text {
      RemoveAllAbsent(text, '*');
      RemoveAllAbsent(text, '#');
    }
  }

  /** A heading marker is dropped, the space after it and the heading
      text stay. */
  lemma CleanupHeading(title: string)
    requires '*' !in title && '#' !in title
    ensures CleanupText("## " + title) == " " + title
  {
    CleanupConcat("## ", title);
    CleanupUnchangedIff(title);
    assert RemoveAll("## ", '*') == "## ";
    assert RemoveAll("## ", '#') == " ";
  }

  /** Bold markers around a text are dropped. */
  lemma CleanupBold(text: string)
    requires '*' !in text && '#' !in text
    ensures CleanupText("**" + text + "**") == text
  {
    CleanupConcat("**" + text, "**");
    CleanupConcat("**", text);
    CleanupUnchangedIff(text);
    assert RemoveAll("**", '*') == "";
    assert RemoveAll("", '#') == "";
  }

  // ---------------------------------------------------------------------
  // [q.strip() for q in response.split('\n') if q.strip()]

  /** A line that can be a question: non-empty and without whitespace at
      either end. */
  predicate IsTrimmed(q: string) {
    q != [] && !IsSpace(q[0]) && !IsSpace(q[|q| - 1])
  }

  /** The comprehension over already split pieces: each piece is stripped,
      pieces that strip to nothing are dropped, order is kept. */
  function StrippedNonBlank(pieces: seq<string>): (qs: seq<string>)
    ensures |qs| <= |pieces|
    ensures forall i :: 0 <= i < |qs| ==> IsTrimmed(qs[i])
  {
    if pieces == [] then []
    else
      (if Strip(pieces[0]) == [] then [] else [Strip(pieces[0])]) + StrippedNonBlank(pieces[1..])
  }

  /** The comprehension drops everything exactly when every piece is blank. */
  lemma {:induction false} StrippedNonBlankEmptyIff(pieces: seq<string>)
    ensures StrippedNonBlank(pieces) == [] <==> forall i :: 0 <= i < |pieces| ==> AllSpace(pieces[i])
  {
    if pieces != [] {
      StrippedNonBlankEmptyIff(pieces[1..]);
      assert forall i :: 1 <= i < |pieces| ==> pieces[i] == pieces[1..][i - 1];
    }
  }

  /** The question list `generate_questions` returns for the model's reply
      `response`: every question is trimmed and holds no line break, there
      are at most as many questions as lines. */
  function ParseQuestions(response: string): (questions: seq<string>)
    ensures |questions| <= multiset(response)['\n'] + 1
    ensures forall i :: 0 <= i < |questions| ==> IsTrimmed(questions[i]) && '\n' !in questions[i]
  {
    StrippedNonBlankNoBreak(Split(response, '\n'));
    StrippedNonBlank(Split(response, '\n'))
  }

  /** There are no questions exactly when the reply is empty or nothing
      but whitespace and line breaks. */
  lemma ParseQuestionsEmptyIff(response: string)
    ensures ParseQuestions(response) == [] <==> AllSpace(response)
  {
    assert IsSpace('\n');
    SplitAllSpace(response, '\n');
    StrippedNonBlankEmptyIff(Split(response, '\n'));
    assert ParseQuestions(response) == StrippedNonBlank(Split(response, '\n'));
  }

  /** Reference for the selection the comprehension makes: the positions,
      in increasing order, of the pieces from `from` on that are not all
      whitespace. */
  function NonBlankPositions(pieces: seq<string>, from: nat): (idx: seq<nat>)
    requires from <= |pieces|
    ensures forall k :: 0 <= k < |idx| ==> from <= idx[k] < |pieces|
    ensures forall k, l :: 0 <= k < l < |idx| ==> idx[k] < idx[l]
    ensures forall i :: from <= i < |pieces| ==> (i in idx <==> !AllSpace(pieces[i]))
    decreases |pieces| - from
  {
    if from == |pieces| then []
    else (if AllSpace(pieces[from]) then [] else [from]) + NonBlankPositions(pieces, from + 1)
  }

  /** `qs` is, in order, the strip of the pieces at the positions `idx`. */
  predicate StripsAt(pieces: seq<string>, idx: seq<nat>, qs: seq<string>) {
    |qs| == |idx| &&
    forall k :: 0 <= k < |idx| ==> idx[k] < |pieces| && qs[k] == Strip(pieces[idx[k]])
  }

  /** The comprehension over `pieces[from..]` yields, in order, the stripped
      pieces at exactly the non-blank positions. */
  lemma {:induction false} StrippedNonBlankSelects(pieces: seq<string>, from: nat)
    requires from <= |pieces|
    ensures StripsAt(pieces, NonBlankPositions(pieces, from), StrippedNonBlank(pieces[from..]))
    decreases |pieces| - from
  {
    if from < |pieces| {
      StrippedNonBlankSelects(pieces, from + 1);
      assert pieces[from..][1..] == pieces[from + 1..];
      if AllSpace(pieces[from]) {
        assert StrippedNonBlank(pieces[from..]) == StrippedNonBlank(pieces[from + 1..]);
        assert NonBlankPositions(pieces, from) == NonBlankPositions(pieces, from + 1);
      } else {
        assert StrippedNonBlank(pieces[from..]) == [Strip(pieces[from])] + StrippedNonBlank(pieces[from + 1..]);
        assert NonBlankPositions(pieces, from) == [from] + NonBlankPositions(pieces, from + 1);
        forall k | 0 <= k < |NonBlankPositions(pieces, from)|
          ensures NonBlankPositions(pieces, from)[k] < |pieces|
          ensures StrippedNonBlank(pieces[from..])[k] == Strip(pieces[NonBlankPositions(pieces, from)[k]])
        {
          if k > 0 {
            assert NonBlankPositions(pieces, from)[k] == NonBlankPositions(pieces, from + 1)[k - 1];
            assert StrippedNonBlank(pieces[from..])[k] == StrippedNonBlank(pieces[from + 1..])[k - 1];
          }
        }
      }
    }
  }

  /** The questions are, in order, the stripped lines of the reply at
      exactly the positions of the lines that are not blank. */
  lemma ParseQuestionsSelects(response: string)
    ensures StripsAt(Split(response, '\n'), NonBlankPositions(Split(response, '\n'), 0), ParseQuestions(response))
  {
    StrippedNonBlankSelects(Split(response, '\n'), 0);
    assert Split(response, '\n')[0..] == Split(response, '\n');
  }

  /** The comprehension works piece by piece: on a concatenation it is the
      concatenation of its results, so the question order follows the line
      order. */
  lemma {:induction false} StrippedNonBlankConcat(a: seq<string>, b: seq<string>)
    ensures StrippedNonBlank(a + b) == StrippedNonBlank(a) + StrippedNonBlank(b)
  {
    if a == [] {
      assert a + b == b;
    } else {
      assert (a + b)[0] == a[0];
      assert (a + b)[1..] == a[1..] + b;
      StrippedNonBlankConcat(a[1..], b);
    }
  }

  /** Lines that are already trimmed are kept one for one. */
  lemma {:induction false} StrippedNonBlankTrimmed(qs: seq<string>)
    requires forall i :: 0 <= i < |qs| ==> IsTrimmed(qs[i])
    ensures StrippedNonBlank(qs) == qs
  {
    if qs != [] {
      StripTrimmed(qs[0]);
      StrippedNonBlankTrimmed(qs[1..]);
      assert qs == [qs[0]] + qs[1..];
    }
  }

  /** `strip` also removes the carriage return that a `\r\n` line ending
      leaves at the end of a piece, since the split is on `\n` only. */
  lemma StripCarriageReturn(q: string)
    requires IsTrimmed(q)
    ensures Strip(q + ['\r']) == q
  {
    var s := q + ['\r'];
    assert SkipSpace(s, 0) == 0;
    assert SkipSpaceBack(s, 0, |s|) == SkipSpaceBack(s, 0, |q|);
    assert s[..|q|] == q;
  }

  /** Two lines, each ended by a line break, split into the two lines and
      a final empty piece. */
  lemma SplitTwoLines(l1: string, l2: string)
    requires '\n' !in l1 && '\n' !in l2
    ensures Split(l1 + ['\n'] + (l2 + ['\n']), '\n') == [l1, l2, []]
  {
    var e: string := [];
    assert l2 + ['\n'] == l2 + ['\n'] + e;
    SplitAtSep(l2, e, '\n');
    SplitAtSep(l1, l2 + ['\n'] + e, '\n');
  }

  /** Two non-blank lines, each ended by a line break, give their two
      stripped forms; the empty piece after the final break is dropped. */
  lemma ParseTwoLines(l1: string, l2: string)
    requires '\n' !in l1 && '\n' !in l2 && !AllSpace(l1) && !AllSpace(l2)
    ensures ParseQuestions(l1 + ['\n'] + (l2 + ['\n'])) == [Strip(l1), Strip(l2)]
  {
    var e: string := [];
    SplitTwoLines(l1, l2);
    assert [l1, l2, e] == [l1, l2] + [e];
    StrippedNonBlankConcat([l1, l2], [e]);
    assert [l1, l2][1..] == [l2];
    assert StrippedNonBlank([l2]) == [Strip(l2)];
    assert StrippedNonBlank([e]) == [];
  }

  /** The reply `"What platform?\nWho are users?\n"` gives the two
      questions in order. */
  lemma ParseQuestionsExample()
    ensures ParseQuestions("What platform?\nWho are users?\n") == ["What platform?", "Who are users?"]
  {
    var q1, q2 := "What platform?", "Who are users?";
    assert "What platform?\nWho are users?\n" == q1 + ['\n'] + (q2 + ['\n']);
    StripTrimmed(q1);
    StripTrimmed(q2);
    ParseTwoLines(q1, q2);
  }

  /** With `\r\n` line endings the questions come out the same. */
  lemma ParseQuestionsCrLfExample()
    ensures ParseQuestions("What platform?\r\nWho are users?\r\n") == ["What platform?", "Who are users?"]
  {
    var q1, q2 := "What platform?", "Who are users?";
    assert "What platform?\r\nWho are users?\r\n" == (q1 + ['\r']) + ['\n'] + ((q2 + ['\r']) + ['\n']);
    StripCarriageReturn(q1);
    StripCarriageReturn(q2);
    ParseTwoLines(q1 + ['\r'], q2 + ['\r']);
  }

  /** A question asked twice is listed twice: nothing is deduplicated. */
  lemma ParseQuestionsKeepsDuplicates()
    ensures ParseQuestions("Who are users?\nWho are users?\n") == ["Who are users?", "Who are users?"]
  {
    var q := "Who are users?";
    assert "Who are users?\nWho are users?\n" == q + ['\n'] + (q + ['\n']);
    StripTrimmed(q);
    ParseTwoLines(q, q);
  }

  /** Pieces without a line break give questions without one. */
  lemma {:induction false} StrippedNonBlankNoBreak(pieces: seq<string>)
    requires forall i :: 0 <= i < |pieces| ==> '\n' !in pieces[i]
    ensures forall i :: 0 <= i < |StrippedNonBlank(pieces)| ==> '\n' !in StrippedNonBlank(pieces)[i]
  {
    if pieces != [] {
      StrippedNonBlankNoBreak(pieces[1..]);
      StripSubset(pieces[0]);
    }
  }

  /** Stripping only removes characters. */
  lemma StripSubset(s: string)
    ensures forall c :: c in Strip(s) ==> c in s
  {
  }

  // ---------------------------------------------------------------------
  // generate_srs

  /** What `generate_srs` returns once the model has replied `response`:
      the reply with its artifacts filtered out and every other character
      kept in order. It holds no `*` or `#`, keeps every other character as
      often as the reply has it, and cleaning it again changes nothing. */
  function GenerateSrs(response: string): (document: string)
    ensures document == KeepPlain(response)
    ensures '*' !in document && '#' !in document
    ensures forall c :: !IsMarkdownArtifact(c) ==> multiset(document)[c] == multiset(response)[c]
    ensures CleanupText(document) == document
  {
    CleanupIsFilter(response);
    CleanupCounts(response);
    CleanupIdempotent(response);
    CleanupText(response)
  }
}
