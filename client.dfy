/**
 * The GP client end to end: what a caller of `send_gp_command` followed by
 * `parse_gp_response` observes, and two sample replies.
 */
module Client {
  import opened Wrappers
  import opened PyStr
  import opened Ascii
  import opened Transport
  import opened Extractor

  /** However the printer splits its reply across reads, and whatever it sends
      after closing or timing out, a GP block surrounded by noise parses to the
      fields of that block. */
  lemma {:induction false} ReplySurvivesFragmentation(
    chunks: seq<seq<byte>>, last: RecvOutcome, rest: seq<RecvOutcome>,
    prefix: string, block: string, suffix: string, xml: XmlParser)
    requires NonEmptyChunks(chunks) && EndsStream(last)
    requires DecodeChunks(chunks) == prefix + block + suffix
    requires StartsWith(block, OpenPrefix) && EndsWith(block, CloseTag)
    requires Absent(prefix, OpenPrefix) && Absent(suffix, CloseTag)
    ensures ParseGpResponse(DecodeAsciiIgnore(Collected(Deliver(chunks) + [last] + rest)), xml)
            == (match xml(block) case None => map[] case Some(children) => ToDict(children))
  {
    CollectedChunksThenEnd(chunks, last, rest);
    RawIsDecodedChunks(chunks);
    ParseIgnoresNoise(prefix, block, suffix, xml);
  }

  /** A reply with a greeting before the block and a NUL after it yields the
      block's single field. */
  lemma ParseStateReply(prefix: string, block: string, suffix: string, xml: XmlParser)
    requires prefix == "junk" && suffix == "trailing\0"
    requires block == "<GP><STATE>READY</STATE></GP>"
    requires xml(block) == Some([Element("STATE", Some("READY"))])
    ensures ParseGpResponse(prefix + block + suffix, xml) == map["STATE" := Some("READY")]
  {
    StateReplyBlock(block);
    StateReplyNoise(prefix, suffix);
    ParseIgnoresNoise(prefix, block, suffix, xml);
  }

  /** The block of that reply is framed by the two markers. */
  lemma StateReplyBlock(block: string)
    requires block == "<GP><STATE>READY</STATE></GP>"
    ensures StartsWith(block, OpenPrefix) && EndsWith(block, CloseTag)
  {
    assert block[0] == '<' && block[1] == 'G' && block[2] == 'P';
    assert block[..3] == OpenPrefix;
    assert block[24] == '<' && block[25] == '/' && block[26] == 'G' && block[27] == 'P' && block[28] == '>';
    assert block[|block| - 5..] == CloseTag;
  }

  /** Neither noise part of that reply contains a marker. */
  lemma StateReplyNoise(prefix: string, suffix: string)
    requires prefix == "junk" && suffix == "trailing\0"
    ensures Absent(prefix, OpenPrefix) && Absent(suffix, CloseTag)
  {
    AbsentByFirstChar(prefix, OpenPrefix);
    AbsentByFirstChar(suffix, CloseTag);
  }

  /** Every immediate child becomes a field; an empty element keeps the text
      `None`, not the empty string. */
  lemma ParseEmptyElement(raw: string, xml: XmlParser)
    requires raw == "<GP><A>1</A><B></B></GP>"
    requires xml(raw) == Some([Element("A", Some("1")), Element("B", None)])
    ensures ParseGpResponse(raw, xml) == map["A" := Some("1"), "B" := None]
  {
    assert raw[..3] == OpenPrefix && raw[|raw| - 5..] == CloseTag;
    assert Absent([], OpenPrefix) && Absent([], CloseTag);
    assert [] + raw + [] == raw;
    ParseIgnoresNoise([], raw, [], xml);
  }

  /** When a tag repeats, the last element with that tag supplies the value. */
  lemma DuplicateTagKeepsLast(a: Option<string>, b: Option<string>)
    ensures ToDict([Element("A", a), Element("A", b)]) == map["A" := b]
  {
    var children := [Element("A", a), Element("A", b)];
    assert children[..1] == [Element("A", a)] && [Element("A", a)][..0] == [];
    assert ToDict(children[..1]) == map["A" := a];
  }
}
