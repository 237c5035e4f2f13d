/**
  `MessageClassifier.classify_message` (src/classifier.py): send the chat turns
  to the inference endpoint, drop any reasoning that ends in `</think>`, and
  split the answer into trimmed comma-separated labels. Any failure becomes the
  one-element sentinel list.
*/
module Classifier {
  import opened Wrappers
  import opened Text

  datatype Role = System | User | Assistant

  /** One `{"role": ..., "content": ...}` entry of the chat turn list. */
  datatype Turn = Turn(role: Role, content: string)

  /** The arguments of `client.chat.completions.create`. */
  datatype Request = Request(model: string, messages: seq<Turn>, temperature: real)

  /** What the endpoint yields for a request: the call raised (transport,
      timeout, authentication or server error, or no choice to index), or a
      completion whose first choice's content may be absent (`None`). */
  datatype Reply = CallFailed | Completion(content: Option<string>)

  /** The end-of-reasoning marker. */
  const Marker: string := "</think>"

  /** The single label returned when classification could not be completed. */
  const Sentinel: string := "Error: Classification failed"

  /** The request classify_message sends: the turns verbatim, the
      placeholder model name and the fixed low temperature. */
  function ChatRequest(turns: seq<Turn>): (req: Request)
    ensures req.messages == turns
    ensures req.model == "local-model" && req.temperature == 0.1
  {
    Request("local-model", turns, 0.1)
  }

  /** `clean_response`: the stripped reply cut after its last `</think>`,
      or the stripped reply itself when it has none. */
  function CleanResponse(response: string): (clean: string)
    ensures !Contains(clean, Marker)
    ensures !Contains(response, Marker) ==> clean == response
  {
    if Contains(response, Marker) then
      SplitPieces(response, Marker);
      assert Last(Split(response, Marker)) == Split(response, Marker)[|Split(response, Marker)| - 1];
      Last(Split(response, Marker))
    else
      response
  }

  /** With a marker, the cleaned reply is what follows one at the very end:
      the reply is some text, `</think>`, and the cleaned reply. */
  lemma CleanSuffix(response: string) returns (thoughts: string)
    requires Contains(response, Marker)
    ensures response == thoughts + Marker + CleanResponse(response)
  {
    thoughts := LastPiece(response, Marker);
  }

  /** `[category.strip() for category in parts]` */
  function StripAll(parts: seq<string>): (labels: seq<string>)
    ensures |labels| == |parts|
    ensures forall k | 0 <= k < |parts| :: labels[k] == Strip(parts[k])
  {
    if parts == [] then [] else [Strip(parts[0])] + StripAll(parts[1..])
  }

  /** The comma-separated labels of an answer: one per comma plus one, each
      unpadded. */
  function Labels(answer: string): (labels: seq<string>)
    ensures |labels| == multiset(answer)[','] + 1
    ensures forall k | 0 <= k < |labels| :: IsStripped(labels[k])
  {
    SplitCount(answer, ',');
    StripAll(Split(answer, ","))
  }

  /** The labels read off a successful reply's text. */
  function ParseLabels(text: string): (labels: seq<string>)
    ensures |labels| >= 1
    ensures forall k | 0 <= k < |labels| :: IsStripped(labels[k])
  {
    Labels(Strip(CleanResponse(Strip(text))))
  }

  /** `classify_message`: one call to the client, then either the parsed
      labels or, on any failure (including absent content), the sentinel. */
  function ClassifyMessage(client: Request -> Reply, turns: seq<Turn>): (labels: seq<string>)
    ensures |labels| >= 1
    ensures client(ChatRequest(turns)).CallFailed? ==> labels == [Sentinel]
    ensures client(ChatRequest(turns)) == Completion(None) ==> labels == [Sentinel]
    ensures client(ChatRequest(turns)).Completion? && client(ChatRequest(turns)).content.Some? ==>
      labels == ParseLabels(client(ChatRequest(turns)).content.value)
  {
    match client(ChatRequest(turns))
    case CallFailed => [Sentinel]
    case Completion(None) => [Sentinel]
    case Completion(Some(text)) => ParseLabels(text)
  }

  // ---------------------------------------------------------------------
  // Properties of the post-processing
  // ---------------------------------------------------------------------

  /** strip() returns an infix of its argument. */
  lemma StripInfix(s: string)
    ensures Contains(s, Strip(s))
  {
    var a, b := StripParts(s);
    OccursMiddle(a, Strip(s), b);
  }

  /** Every label is an infix of the answer it was read from. */
  lemma LabelsInfix(answer: string)
    ensures forall k | 0 <= k < |Labels(answer)| :: Contains(answer, Labels(answer)[k])
  {
    var parts := Split(answer, ",");
    SplitPieces(answer, ",");
    forall k | 0 <= k < |Labels(answer)| ensures Contains(answer, Labels(answer)[k]) {
      StripInfix(parts[k]);
      ContainsTrans(answer, parts[k], Labels(answer)[k]);
    }
  }

  /** No label contains `</think>`. */
  lemma LabelsFreeOfMarker(text: string)
    ensures forall k | 0 <= k < |ParseLabels(text)| :: !Contains(ParseLabels(text)[k], Marker)
  {
    var clean := CleanResponse(Strip(text));
    var answer := Strip(clean);
    StripInfix(clean);
    LabelsInfix(answer);
    forall k | 0 <= k < |ParseLabels(text)| ensures !Contains(ParseLabels(text)[k], Marker) {
      var lab := ParseLabels(text)[k];
      if Contains(lab, Marker) {
        ContainsTrans(answer, lab, Marker);
        ContainsTrans(clean, answer, Marker);
      }
    }
  }

  /** The number of labels is the number of commas in the cleaned answer
      plus one; a reply without `</think>` is split as a whole. */
  lemma LabelCount(text: string)
    ensures |ParseLabels(text)| == multiset(Strip(CleanResponse(Strip(text))))[','] + 1
    ensures !Contains(Strip(text), Marker) ==>
      |ParseLabels(text)| == multiset(Strip(text))[','] + 1
  {
    StripIdempotent(text);
  }

  lemma MarkerNoSelfOverlap()
    ensures NoSelfOverlap(Marker)
  {
    forall d | 0 < d < |Marker| ensures Marker[d..] != Marker[..|Marker| - d] {
      assert Marker[..|Marker| - d][0] == '<';
      assert Marker[d..][0] != '<';
    }
  }

  /** Stripping a reply that has `</think>` in it touches only the text
      before the marker's start and after the answer's end. */
  lemma StripMarked(p: string, t: string)
    ensures Strip(p + Marker + t) == LStrip(p) + Marker + RStrip(t)
  {
    assert p + Marker + t == p + (Marker + t);
    LStripConcat(p, Marker + t);
    Assoc3(LStrip(p), Marker, t);
    RStripConcat(LStrip(p) + Marker, t);
  }

  /** Stripping the answer without its trailing whitespace is stripping the
      answer, and that prefix is an infix of the answer. */
  lemma StripRStrip(t: string)
    ensures Strip(RStrip(t)) == Strip(t)
    ensures Contains(t, RStrip(t))
  {
    var y := RStrip(t);
    var b := RStripSplit(t);
    OccursMiddle([], y, b);
    assert [] + y + b == t;
    var a, b1 := StripParts(y);
    AllSpaceConcat(b1, b);
    Assoc3(a + Strip(y), b1, b);
    StripUnique(a, Strip(y), b1 + b);
  }

  /** Everything up to and including the last `</think>` is dropped: the
      labels are those of the text after it alone. */
  lemma ThoughtsDropped(p: string, t: string)
    requires !Contains(t, Marker)
    ensures ParseLabels(p + Marker + t) == ParseLabels(t)
  {
    var y := RStrip(t);
    var pc := LStrip(p);
    StripMarked(p, t);
    StripRStrip(t);
    if Contains(y, Marker) {
      ContainsTrans(t, y, Marker);
    }
    OccursMiddle(pc, Marker, y);
    MarkerNoSelfOverlap();
    LastPieceAfter(pc, Marker, y);
    assert CleanResponse(Strip(p + Marker + t)) == y;
    // the reply without the thoughts
    StripInfix(t);
    if Contains(Strip(t), Marker) {
      ContainsTrans(t, Strip(t), Marker);
    }
    assert CleanResponse(Strip(t)) == Strip(t);
    StripIdempotent(t);
  }

  /** A character absent from a string cannot start an occurrence. */
  lemma AbsentHead(s: string, sep: string)
    requires |sep| > 0 && sep[0] !in s
    ensures !Contains(s, sep)
  {
  }

  /** Splitting on a character where it first occurs. */
  lemma SplitAtChar(x: string, c: char, y: string)
    requires c !in x
    ensures Split(x + [c] + y, [c]) == [x] + Split(y, [c])
  {
    var s := x + [c] + y;
    assert OccursAt(s, [c], |x|);
    forall j | 0 <= j < |x| ensures !OccursAt(s, [c], j) {
      assert s[j] == x[j];
    }
    assert FindFirst(s, [c]) == Some(|x|);
    assert s[..|x|] == x && s[|x| + 1..] == y;
  }

  /** A string without the separator is its own single piece. */
  lemma SplitNoChar(y: string, c: char)
    requires c !in y
    ensures Split(y, [c]) == [y]
  {
    ContainsChar(y, c);
  }

  /** A padded reply without `</think>` is labelled by its stripped form. */
  lemma PaddedAnswer(reply: string, a: string, answer: string, b: string)
    requires reply == a + answer + b && AllSpace(a) && AllSpace(b)
    requires IsStripped(answer) && !Contains(answer, Marker)
    ensures ParseLabels(reply) == Labels(answer)
  {
    StripUnique(a, answer, b);
    StripStripped(answer);
  }

  /** Two comma-free segments give their two stripped labels. */
  lemma TwoSegments(x: string, y: string)
    requires ',' !in x && ',' !in y
    ensures Labels(x + [','] + y) == [Strip(x), Strip(y)]
  {
    SplitAtChar(x, ',', y);
    SplitNoChar(y, ',');
  }

  /** Replies shaped like the one in the classifier's unit test: the
      whitespace around the reply and after the comma is dropped. The unit
      test's `"  category1,  category2 "` is the instance `x := "category1"`,
      `y := "category2"`. */
  lemma PaddedPair(x: string, y: string)
    requires IsStripped(x) && IsStripped(y) && |x| > 0 && |y| > 0
    requires ',' !in x && ',' !in y && !Contains(x, Marker) && !Contains(y, Marker)
    ensures ParseLabels("  " + x + ",  " + y + " ") == [x, y]
  {
    var answer := x + [','] + ("  " + y);
    PaddedPairShape(x, y);
    PaddedAnswer("  " + x + ",  " + y + " ", "  ", answer, " ");
    PairLabels(x, y);
  }

  /** The unit test's mocked reply: the endpoint answers
      `"  category1,  category2 "` and the labels are the two categories. */
  lemma UnitTestReply(turns: seq<Turn>)
    ensures ClassifyMessage(req => Completion(Some("  category1,  category2 ")), turns)
      == ["category1", "category2"]
  {
    UnitTestLabels();
  }

  lemma UnitTestLabels()
    ensures ParseLabels("  category1,  category2 ") == ["category1", "category2"]
  {
    var x, y := "category1", "category2";
    assert x[0] == 'c' && x[|x| - 1] == '1' && y[0] == 'c' && y[|y| - 1] == '2';
    assert forall k | 0 <= k < |x| :: x[k] != ',' && x[k] != '<';
    assert forall k | 0 <= k < |y| :: y[k] != ',' && y[k] != '<';
    AbsentHead(x, Marker);
    AbsentHead(y, Marker);
    assert "  category1,  category2 " == "  " + x + ",  " + y + " ";
    PaddedPair(x, y);
  }

  lemma PaddedPairShape(x: string, y: string)
    requires IsStripped(x) && IsStripped(y) && |x| > 0 && |y| > 0
    requires !Contains(x, Marker) && !Contains(y, Marker)
    ensures "  " + x + ",  " + y + " " == "  " + (x + [','] + ("  " + y)) + " "
    ensures IsStripped(x + [','] + ("  " + y)) && !Contains(x + [','] + ("  " + y), Marker)
  {
    var answer := x + [','] + ("  " + y);
    assert answer[0] == x[0] && answer[|answer| - 1] == y[|y| - 1];
    NoOccurrenceAcross(x, ",  ", y, Marker);
    assert answer == x + ",  " + y;
  }

  lemma PairLabels(x: string, y: string)
    requires IsStripped(x) && IsStripped(y) && ',' !in x && ',' !in y
    ensures Labels(x + [','] + ("  " + y)) == [x, y]
  {
    StripLeading("  ", y);
    assert ',' !in "  " + y;
    TwoLabels(x, "  " + y, y);
  }

  lemma TwoLabels(x: string, seg: string, y: string)
    requires IsStripped(x) && ',' !in x && ',' !in seg && Strip(seg) == y
    ensures Labels(x + [','] + seg) == [x, y]
  {
    TwoSegments(x, seg);
    StripStripped(x);
  }

  /** Empty segments are kept: a reply shaped like "a,,b" gives three
      labels, the middle one empty. */
  lemma EmptySegmentKept(x: string, y: string)
    requires IsStripped(x) && IsStripped(y) && |x| > 0 && |y| > 0
    requires ',' !in x && ',' !in y && !Contains(x, Marker) && !Contains(y, Marker)
    ensures ParseLabels(x + ",," + y) == [x, "", y]
  {
    var reply := x + [','] + ([','] + y);
    assert x + ",," + y == reply;
    assert reply[0] == x[0] && reply[|reply| - 1] == y[|y| - 1];
    NoOccurrenceAcross(x, ",,", y, Marker);
    PaddedAnswer(reply, [], reply, []);
    assert [] + reply + [] == reply;
    ThreeSegments(x, y);
    ThreeLabels(x, y);
  }

  lemma ThreeSegments(x: string, y: string)
    requires ',' !in x && ',' !in y
    ensures Labels(x + [','] + ([','] + y)) == [Strip(x), Strip([]), Strip(y)]
  {
    var s := x + [','] + ([','] + y);
    SplitAtChar(x, ',', [','] + y);
    assert [','] + y == [] + [','] + y;
    SplitAtChar([], ',', y);
    SplitNoChar(y, ',');
    assert Split(s, ",") == [x, [], y];
    StripAllThree(x, [], y);
  }

  lemma StripAllThree(a: string, b: string, c: string)
    ensures StripAll([a, b, c]) == [Strip(a), Strip(b), Strip(c)]
  {
  }

  lemma ThreeLabels(x: string, y: string)
    requires IsStripped(x) && IsStripped(y)
    ensures [Strip(x), Strip([]), Strip(y)] == [x, "", y]
  {
    StripStripped(x);
    StripStripped(y);
    StripStripped([]);
  }

  /** A blank reply still yields one label, the empty one. */
  lemma BlankReply(text: string)
    requires AllSpace(text)
    ensures ParseLabels(text) == [""]
  {
    AbsentHead([], Marker);
    PaddedAnswer(text, text, [], []);
    StripUnique([], [], []);
    SplitNoChar([], ',');
  }
}
