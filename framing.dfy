/**
 * Command framing of `send_gp_command`: strip the body, wrap it in the GP
 * envelope unless it already starts with `<GP>`, encode it as ASCII and
 * terminate it with CR LF.
 */
module Framing {
  import opened Wrappers
  import opened PyStr
  import opened Ascii

  /** The opening envelope tag, tested as an exact prefix. */
  const Open: string := "<GP>"
  /** The closing envelope tag. */
  const Close: string := "</GP>"
  /** The wire terminator: carriage return, line feed. */
  const Terminator: seq<byte> := [13, 10]

  /** The body actually sent, before encoding. */
  function Normalize(body: string): (r: string)
    ensures StartsWith(r, Open)
    ensures NoEdgeSpace(r)
  {
    var stripped := Strip(body);
    if StartsWith(stripped, Open) then stripped
    else
      var w := Open + stripped + Close;
      assert w[..|Open|] == Open;
      assert w[0] == '<' && w[|w| - 1] == '>';
      w
  }

  /** The stripped body passes unchanged exactly when it already starts with
      `<GP>`; otherwise it is enclosed between `<GP>` and `</GP>`. */
  lemma NormalizeCases(body: string)
    ensures Normalize(body) == Strip(body) <==> StartsWith(Strip(body), Open)
    ensures !StartsWith(Strip(body), Open) ==> Normalize(body) == Open + Strip(body) + Close
  {
  }

  /** Normalising an already normalised body changes nothing. */
  lemma NormalizeIdempotent(body: string)
    ensures Normalize(Normalize(body)) == Normalize(body)
  {
    var n := Normalize(body);
    StripFixed(n);
  }

  /** A body without surrounding whitespace that does not start with `<GP>`
      is enclosed in the envelope as it is. */
  lemma NormalizeWrapsTrimmed(body: string)
    requires NoEdgeSpace(body) && !StartsWith(body, Open)
    ensures Normalize(body) == Open + body + Close
  {
    StripFixed(body);
  }

  /** The prefix test is on the exact string `<GP>`: a body that opens with
      `<GP` but continues otherwise, such as a self-closing `<GP/>` or a root
      tag with attributes, is enclosed once more. */
  lemma NormalizeWrapsOtherGpForms(body: string)
    requires NoEdgeSpace(body)
    requires |body| > 3 && body[0] == '<' && body[1] == 'G' && body[2] == 'P' && body[3] != '>'
    ensures Normalize(body) == Open + body + Close
  {
    assert body[3] != Open[3];
    NormalizeWrapsTrimmed(body);
  }

  /** A body without surrounding whitespace that starts with `<GP>` is sent
      as it is: nothing checks that it also ends with `</GP>`. */
  lemma NormalizeKeepsUnclosedBody(body: string)
    requires NoEdgeSpace(body) && StartsWith(body, Open)
    ensures Normalize(body) == body
  {
    StripFixed(body);
  }

  /** The bytes written to the socket: the ASCII encoding of the normalised
      body followed by CR LF, or the encoder's error. */
  function Frame(body: string): (r: Result<seq<byte>, EncodeError>)
    ensures r.Success? <==> AllAscii(Normalize(body))
    ensures r.Success? ==> |r.value| == |Normalize(body)| + 2
                           && r.value[|r.value| - 2..] == Terminator
                           && DecodeAsciiIgnore(r.value[..|r.value| - 2]) == Normalize(body)
    ensures r.Failure? ==> r.error.position < |Normalize(body)|
                           && !IsAsciiChar(Normalize(body)[r.error.position])
                           && forall i :: 0 <= i < r.error.position ==> IsAsciiChar(Normalize(body)[i])
  {
    match EncodeAscii(Normalize(body))
    case Failure(e) => Failure(e)
    case Success(bytes) =>
      EncodeDecodeRoundTrip(Normalize(body));
      assert (bytes + Terminator)[..|bytes|] == bytes;
      Success(bytes + Terminator)
  }

  /** An encodable body is framed as its encoding followed by the terminator. */
  lemma FrameOfEncodable(body: string, bytes: seq<byte>)
    requires EncodeAscii(Normalize(body)) == Success(bytes)
    ensures Frame(body) == Success(bytes + Terminator)
  {
  }

  /** Only the stripped body is encoded: whatever whitespace surrounds it,
      even outside ASCII, the frame succeeds when the stripped body is ASCII. */
  lemma FrameIgnoresStrippedSpace(body: string)
    requires AllAscii(Strip(body))
    ensures Frame(body).Success?
  {
    var stripped := Strip(body);
    NormalizeCases(body);
    EnvelopeAscii();
    AllAsciiConcat(Open, stripped);
    AllAsciiConcat(Open + stripped, Close);
    assert AllAscii(Normalize(body));
  }

  /** Both envelope tags are plain ASCII. */
  lemma EnvelopeAscii()
    ensures AllAscii(Open) && AllAscii(Close)
  {
  }

  /** An ideographic space before an ASCII body is stripped, so it does not
      make the encoder fail. */
  lemma FrameIgnoresIdeographicSpace(s: string, body: string)
    requires NoEdgeSpace(body) && AllAscii(body)
    requires s == ['\U{3000}'] + body
    ensures Frame(s).Success?
  {
    assert s[1..] == body;
    StripUnique(s, 1, |s|);
    FrameIgnoresStrippedSpace(s);
  }

  /** The status query of the demo goes on the wire as the 18 ASCII bytes of
      `<GP><STATUS/></GP>` followed by CR LF. */
  lemma FrameStatusQuery(body: string, bytes: seq<byte>)
    requires body == "<STATUS/>"
    requires bytes == [60, 71, 80, 62, 60, 83, 84, 65, 84, 85, 83, 47, 62, 60, 47, 71, 80, 62]
    ensures Frame(body) == Success(bytes + Terminator)
  {
    assert body[1] != Open[1];
    NormalizeWrapsTrimmed(body);
    StatusQueryEncoding(Open + body + Close, bytes);
    FrameOfEncodable(body, bytes);
  }

  /** The enclosed status query encodes to those 18 bytes. */
  lemma StatusQueryEncoding(n: string, bytes: seq<byte>)
    requires n == Open + "<STATUS/>" + Close
    requires bytes == [60, 71, 80, 62, 60, 83, 84, 65, 84, 85, 83, 47, 62, 60, 47, 71, 80, 62]
    ensures EncodeAscii(n) == Success(bytes)
  {
    assert n == "<GP><STATUS/></GP>";
    EncodesTo(n, bytes);
  }
}
