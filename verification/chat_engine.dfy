/**
 * `ChatEngine.ask_question`: answers a question by quoting the documents a
 * similarity search returns, one labelled block per document, followed by
 * the sorted list of their sources. The vector store is a parameter.
 */
module ChatEngine {
  import opened Wrappers
  import opened PyStr
  import opened StrOrder
  import opened DocumentProcessor

  /** How many documents the question asks the vector store for. */
  const SearchK: nat := 4

  const NotFoundMessage: string :=
    "I couldn't find relevant information "
    + "in the uploaded documents. "
    + "Please try asking about topics "
    + "mentioned in your market reports."
  const Preamble: string := "Based on your market research documents:\n\n"
  const BlockSeparator: string := "\n\n"
  const SourcesHeading: string := "\n\n**Sources:** "
  const SourceSeparator: string := ", "
  const ErrorPrefix: string := "Error: "
  const UnknownSource: string := "Unknown"

  /** `vectorstore.similarity_search(query, k=k)`: the documents found, best
      first, or the message of the exception the store raised. */
  type SimilaritySearch = (string, nat) -> Result<seq<Document>, string>

  /** `doc.metadata.get('source', 'Unknown')`. */
  function Label(d: Document): (name: string)
    ensures "source" in d.metadata ==> name == d.metadata["source"]
    ensures "source" !in d.metadata ==> name == UnknownSource
  {
    SourceOf(d).GetOr(UnknownSource)
  }

  /** The labels of the documents, as the set the loop accumulates. */
  function LabelSet(docs: seq<Document>): (labels: set<string>)
    ensures forall l :: l in labels <==> exists i :: 0 <= i < |docs| && Label(docs[i]) == l
  {
    set i | 0 <= i < |docs| :: Label(docs[i])
  }

  /** The context block quoting one document under its label: a bold
      heading line naming the source, then the chunk text unchanged. */
  function ContextBlock(d: Document): (block: string)
    ensures StartsWith(block, "**From " + Label(d) + ":**\n")
    ensures EndsWith(block, d.pageContent)
  {
    ConcatEnds("**From " + Label(d) + ":**\n", d.pageContent);
    "**From " + Label(d) + ":**\n" + d.pageContent
  }

  /** One context block per document, in retrieval order. */
  function Blocks(docs: seq<Document>): (blocks: seq<string>)
    ensures |blocks| == |docs|
    ensures forall i :: 0 <= i < |docs| ==> blocks[i] == ContextBlock(docs[i])
  {
    seq(|docs|, i requires 0 <= i < |docs| => ContextBlock(docs[i]))
  }

  /** The loop of `ask_question`: the context parts appended and the sources
      added, document by document. */
  function Gather(docs: seq<Document>): (acc: (seq<string>, set<string>))
    ensures acc.0 == Blocks(docs)
    ensures acc.1 == LabelSet(docs)
  {
    if docs == [] then ([], {})
    else
      var prev := Gather(docs[..|docs| - 1]);
      var d := docs[|docs| - 1];
      LabelSetSnoc(docs);
      BlocksSnoc(docs);
      (prev.0 + [ContextBlock(d)], prev.1 + {Label(d)})
  }

  /** Adding one document to the sequence adds its block at the end. */
  lemma BlocksSnoc(docs: seq<Document>)
    requires docs != []
    ensures Blocks(docs) == Blocks(docs[..|docs| - 1]) + [ContextBlock(docs[|docs| - 1])]
  {
    var init := docs[..|docs| - 1];
    assert forall i :: 0 <= i < |init| ==> init[i] == docs[i];
  }

  /** Adding one document to the sequence adds its label to the set. */
  lemma LabelSetSnoc(docs: seq<Document>)
    requires docs != []
    ensures LabelSet(docs) == LabelSet(docs[..|docs| - 1]) + {Label(docs[|docs| - 1])}
  {
    var init := docs[..|docs| - 1];
    forall l | l in LabelSet(docs)
      ensures l in LabelSet(init) + {Label(docs[|docs| - 1])}
    {
      var i :| 0 <= i < |docs| && Label(docs[i]) == l;
      if i < |docs| - 1 {
        assert init[i] == docs[i];
      }
    }
    forall l | l in LabelSet(init)
      ensures l in LabelSet(docs)
    {
      var i :| 0 <= i < |init| && Label(init[i]) == l;
      assert docs[i] == init[i];
    }
  }

  /** What `ask_question` decided to say, before it is rendered as text. */
  datatype Reply =
    | NoMatch
    | Grounded(blocks: seq<string>, sources: seq<string>)
    | Failed(reason: string)

  /** The decision: no documents, documents to quote, or an exception to report. */
  function Compose(found: Result<seq<Document>, string>): (reply: Reply)
    ensures reply.Failed? <==> found.Failure?
    ensures found.Failure? ==> reply.reason == found.error
    ensures reply.NoMatch? <==> found == Success([])
    ensures reply.Grounded? ==> found.Success? && reply.blocks == Blocks(found.value)
    ensures reply.Grounded? ==> StrictlySorted(reply.sources) && Elems(reply.sources) == LabelSet(found.value)
  {
    match found
    case Failure(e) => Failed(e)
    case Success(docs) =>
      if docs == [] then NoMatch
      else
        var acc := Gather(docs);
        Grounded(acc.0, SortSet(acc.1))
  }

  /** The text of a grounded answer: the preamble, the blocks separated by
      blank lines, then the sources line. */
  function GroundedText(blocks: seq<string>, sources: seq<string>): (text: string)
    ensures text == Preamble + Join(BlockSeparator, blocks) + SourcesHeading + Join(SourceSeparator, sources)
    ensures StartsWith(text, Preamble)
    ensures EndsWith(text, SourcesHeading + Join(SourceSeparator, sources))
  {
    var tail := SourcesHeading + Join(SourceSeparator, sources);
    var rest := Join(BlockSeparator, blocks) + tail;
    ConcatEnds(Preamble, rest);
    ConcatEnds(Join(BlockSeparator, blocks), tail);
    EndsWithTail(Preamble, Join(BlockSeparator, blocks), tail);
    Preamble + rest
  }

  /** A text whose first character is not 'E' does not read as an error. */
  lemma NotAnError(text: string)
    requires text != [] && text[0] != 'E'
    ensures !StartsWith(text, ErrorPrefix)
  {
    assert ErrorPrefix[0] == 'E';
  }

  /** The reply as the text the user reads. Each kind of reply opens
      differently, so only a failure reads as an error. */
  function Render(reply: Reply): (text: string)
    ensures text != []
    ensures reply.NoMatch? ==> text == NotFoundMessage
    ensures reply.Failed? ==> text == ErrorPrefix + reply.reason
    ensures reply.Grounded? ==> StartsWith(text, Preamble)
    ensures reply.Grounded? ==> EndsWith(text, SourcesHeading + Join(SourceSeparator, reply.sources))
    ensures StartsWith(text, ErrorPrefix) <==> reply.Failed?
  {
    match reply
    case NoMatch =>
      assert NotFoundMessage[0] == 'I';
      NotAnError(NotFoundMessage);
      NotFoundMessage
    case Failed(reason) =>
      assert (ErrorPrefix + reason)[..|ErrorPrefix|] == ErrorPrefix;
      ErrorPrefix + reason
    case Grounded(blocks, sources) =>
      var text := GroundedText(blocks, sources);
      assert text[0] == Preamble[0] == 'B';
      NotAnError(text);
      text
  }

  /** `ask_question`: search with k = 4, then compose and render the answer. */
  function AskQuestion(question: string, search: SimilaritySearch): (answer: string)
    ensures search(question, SearchK).Failure? ==> answer == ErrorPrefix + search(question, SearchK).error
    ensures search(question, SearchK) == Success([]) ==> answer == NotFoundMessage
    ensures search(question, SearchK).Success? && search(question, SearchK).value != [] ==>
      var docs := search(question, SearchK).value;
      answer == Preamble + Join(BlockSeparator, Blocks(docs)) + SourcesHeading
                + Join(SourceSeparator, SortSet(LabelSet(docs)))
    ensures answer != []
    ensures StartsWith(answer, ErrorPrefix) <==> search(question, SearchK).Failure?
  {
    var found := search(question, SearchK);
    GroundedAnswer(found);
    Render(Compose(found))
  }

  lemma GroundedAnswer(found: Result<seq<Document>, string>)
    ensures found.Success? && found.value != [] ==>
      Render(Compose(found)) == Preamble + Join(BlockSeparator, Blocks(found.value)) + SourcesHeading
                                + Join(SourceSeparator, SortSet(LabelSet(found.value)))
  {
    if found.Success? && found.value != [] {
      var reply := Compose(found);
      SortedListingUnique(reply.sources, SortSet(LabelSet(found.value)));
      assert Render(reply) == GroundedText(reply.blocks, reply.sources);
    }
  }

  /** The sources line is `sorted(set(labels))`: any ascending, repeat-free
      listing of the labels is exactly the one the reply carries. */
  lemma SourcesAreSortedLabels(docs: seq<Document>, listing: seq<string>)
    requires docs != []
    requires StrictlySorted(listing) && Elems(listing) == LabelSet(docs)
    ensures Compose(Success(docs)).sources == listing
  {
    SortedListingUnique(Compose(Success(docs)).sources, listing);
  }

  /** Each source is named once, and the names are exactly the labels of the quoted blocks. */
  lemma SourcesMatchBlocks(docs: seq<Document>)
    requires docs != []
    ensures var reply := Compose(Success(docs));
      && (forall i, j :: 0 <= i < j < |reply.sources| ==> reply.sources[i] != reply.sources[j])
      && (forall i :: 0 <= i < |docs| ==> Label(docs[i]) in reply.sources)
      && (forall l :: l in reply.sources ==> exists i :: 0 <= i < |docs| && Label(docs[i]) == l)
  {
    var reply := Compose(Success(docs));
    StrictlySortedDistinct(reply.sources);
    forall i | 0 <= i < |docs|
      ensures Label(docs[i]) in reply.sources
    {
      assert Label(docs[i]) in LabelSet(docs);
    }
  }

  /** With a store that honours `k`, an answer quotes at most four documents. */
  lemma AtMostFourBlocks(question: string, search: SimilaritySearch)
    requires forall q, k :: search(q, k).Success? ==> |search(q, k).value| <= k
    ensures Compose(search(question, SearchK)).Grounded? ==> |Compose(search(question, SearchK)).blocks| <= 4
  {
  }
}
