/**
 * The two ASCII codecs of the GP client: `str.encode('ascii')`, which raises
 * on the first character above 127, and `bytes.decode('ascii', errors='ignore')`,
 * which silently drops every byte above 127.
 */
module Ascii {
  import opened Wrappers

  newtype byte = b: int | 0 <= b < 256

  /** The character is in the 7-bit ASCII range. */
  predicate IsAsciiChar(c: char) {
    c as int < 128
  }

  predicate AllAscii(s: string) {
    forall i :: 0 <= i < |s| ==> IsAsciiChar(s[i])
  }

  predicate AllAsciiBytes(bs: seq<byte>) {
    forall i :: 0 <= i < |bs| ==> bs[i] < 128
  }

  /** Python's UnicodeEncodeError, reduced to the index of the offending character. */
  datatype EncodeError = NonAscii(position: nat)

  /** `s.encode('ascii')`: one byte per character with the same code, or an
      error naming the first character that has no ASCII code. */
  function EncodeAscii(s: string): (r: Result<seq<byte>, EncodeError>)
    ensures r.Success? <==> AllAscii(s)
    ensures r.Success? ==> |r.value| == |s|
                           && forall i :: 0 <= i < |s| ==> r.value[i] as int == s[i] as int
    ensures r.Failure? ==> r.error.position < |s| && !IsAsciiChar(s[r.error.position])
                           && forall i :: 0 <= i < r.error.position ==> IsAsciiChar(s[i])
  {
    if s == [] then Success([])
    else if !IsAsciiChar(s[0]) then Failure(NonAscii(0))
    else match EncodeAscii(s[1..])
      case Success(tail) => Success([s[0] as int as byte] + tail)
      case Failure(NonAscii(p)) => Failure(NonAscii(p + 1))
  }

  /** Encoding is determined by its contract: the byte string with the same
      codes is the encoding. */
  lemma EncodesTo(s: string, bs: seq<byte>)
    requires AllAsciiBytes(bs)
    requires |s| == |bs| && forall i :: 0 <= i < |s| ==> s[i] as int == bs[i] as int
    ensures EncodeAscii(s) == Success(bs)
  {
    assert AllAscii(s);
    var r := EncodeAscii(s).value;
    assert forall i :: 0 <= i < |bs| ==> r[i] == bs[i];
    assert r == bs;
  }

  /** The character an ASCII byte stands for, or nothing for a byte above 127. */
  function DecodeByte(b: byte): (r: string)
    ensures b < 128 ==> |r| == 1 && r[0] as int == b as int
    ensures b >= 128 ==> r == []
  {
    if b < 128 then [b as int as char] else []
  }

  /** `bs.decode('ascii', errors='ignore')`. */
  function DecodeAsciiIgnore(bs: seq<byte>): (s: string)
    ensures |s| <= |bs|
    ensures AllAscii(s)
  {
    if bs == [] then [] else DecodeByte(bs[0]) + DecodeAsciiIgnore(bs[1..])
  }

  /** The number of bytes at most 127. */
  function CountAscii(bs: seq<byte>): nat {
    if bs == [] then 0 else (if bs[0] < 128 then 1 else 0) + CountAscii(bs[1..])
  }

  /** Decoding is stateless: a buffer decodes to the concatenation of the
      decodings of any split of it, so the order of the kept bytes is preserved
      and the decoder never depends on how the bytes were chunked. */
  lemma {:induction false} DecodeConcat(a: seq<byte>, b: seq<byte>)
    ensures DecodeAsciiIgnore(a + b) == DecodeAsciiIgnore(a) + DecodeAsciiIgnore(b)
  {
    if a == [] {
      assert a + b == b;
    } else {
      assert (a + b)[1..] == a[1..] + b;
      DecodeConcat(a[1..], b);
    }
  }

  /** Exactly the ASCII bytes survive decoding. */
  lemma {:induction false} DecodeLength(bs: seq<byte>)
    ensures |DecodeAsciiIgnore(bs)| == CountAscii(bs)
  {
    if bs != [] {
      DecodeLength(bs[1..]);
    }
  }

  /** A byte above 127 inserted anywhere leaves the decoded text unchanged. */
  lemma DecodeDropsHighByte(a: seq<byte>, b: byte, c: seq<byte>)
    requires b >= 128
    ensures DecodeAsciiIgnore(a + [b] + c) == DecodeAsciiIgnore(a + c)
  {
    assert DecodeAsciiIgnore([b]) == [] by {
      assert [b][1..] == [];
    }
    calc {
      DecodeAsciiIgnore(a + [b] + c);
    == { DecodeConcat(a + [b], c); }
      DecodeAsciiIgnore(a + [b]) + DecodeAsciiIgnore(c);
    == { DecodeConcat(a, [b]); }
      DecodeAsciiIgnore(a) + DecodeAsciiIgnore(c);
    == { DecodeConcat(a, c); }
      DecodeAsciiIgnore(a + c);
    }
  }

  /** A concatenation is ASCII exactly when both parts are. */
  lemma AllAsciiConcat(a: string, b: string)
    ensures AllAscii(a + b) <==> AllAscii(a) && AllAscii(b)
  {
    assert forall i :: 0 <= i < |a| ==> (a + b)[i] == a[i];
    assert forall i :: 0 <= i < |b| ==> (a + b)[|a| + i] == b[i];
  }

  /** An all-ASCII buffer decodes losslessly, character for byte. */
  lemma {:induction false} DecodeAllAscii(bs: seq<byte>)
    requires AllAsciiBytes(bs)
    ensures |DecodeAsciiIgnore(bs)| == |bs|
    ensures forall i :: 0 <= i < |bs| ==> DecodeAsciiIgnore(bs)[i] as int == bs[i] as int
  {
    if bs != [] {
      DecodeAllAscii(bs[1..]);
      var t := DecodeAsciiIgnore(bs[1..]);
      assert DecodeAsciiIgnore(bs) == DecodeByte(bs[0]) + t;
      forall i | 0 <= i < |bs| ensures DecodeAsciiIgnore(bs)[i] as int == bs[i] as int {
        if i > 0 {
          assert DecodeAsciiIgnore(bs)[i] == t[i - 1];
        }
      }
    }
  }

  /** Encoding then decoding gives back the text whenever encoding succeeds. */
  lemma EncodeDecodeRoundTrip(s: string)
    requires EncodeAscii(s).Success?
    ensures DecodeAsciiIgnore(EncodeAscii(s).value) == s
  {
    var bs := EncodeAscii(s).value;
    DecodeAllAscii(bs);
  }
}
