/**
  Construction of the notification URL `http://<base>/api/<id>/<status>`
  in a fixed-capacity (128-byte) string.

  Formatting writes the pieces of the format string one after another;
  the fixed-capacity string refuses a piece that does not fit (leaving
  the buffer as it was) and formatting stops at the first refusal. On a
  refusal the firmware waits 30 seconds and resets the device, so the
  partly written buffer is never handed on.
 */
module UrlBuilder {
  import opened Numeric
  import opened Decimal

  /** Capacity, in bytes, of the URL buffer. */
  const UrlCapacity: nat := 128

  /** Grace period before the reset that follows a formatting failure. */
  const ResetGraceMs: nat := 30_000

  /** The bytes of a 7-bit ASCII literal, one per character: the
      character's code is its UTF-8 encoding. */
  function Ascii(s: string): (b: seq<byte>)
    requires forall i | 0 <= i < |s| :: s[i] < 128 as char
    ensures |b| == |s|
  {
    seq(|s|, i requires 0 <= i < |s| => s[i] as int)
  }

  /** How a `bool` is displayed. */
  function StatusText(status: bool): seq<byte>
  {
    if status then Ascii("true") else Ascii("false")
  }

  /** Reference definition: the complete URL text. */
  function UrlText(base: seq<byte>, id: u64, status: bool): seq<byte>
  {
    Ascii("http://") + base + Ascii("/api/") + NatToDecimal(id) + Ascii("/") + StatusText(status)
  }

  /** The pieces the format string writes, in order: literals and the
      three rendered arguments. */
  function UrlPieces(base: seq<byte>, id: u64, status: bool): seq<seq<byte>>
  {
    [Ascii("http://"), base, Ascii("/api/"), NatToDecimal(id), Ascii("/"), StatusText(status)]
  }

  function Concat(pieces: seq<seq<byte>>): seq<byte>
  {
    if |pieces| == 0 then [] else pieces[0] + Concat(pieces[1..])
  }

  /** Result of writing into a fixed-capacity string. */
  datatype WriteResult =
    | Written(buf: seq<byte>)
    | Overflow(partial: seq<byte>)

  /** Appending one piece to a fixed-capacity string: all of it or none. */
  function PushStr(buf: seq<byte>, piece: seq<byte>, cap: nat): (r: WriteResult)
    requires |buf| <= cap
    ensures r.Written? <==> |buf| + |piece| <= cap
    ensures r.Written? ==> r.buf == buf + piece
    ensures r.Overflow? ==> r.partial == buf
  {
    if |buf| + |piece| <= cap then Written(buf + piece) else Overflow(buf)
  }

  /** Writing the pieces in order, stopping at the first that does not
      fit. The whole write succeeds exactly when everything fits; a failed
      write leaves a proper prefix of the intended text, within capacity. */
  function WritePieces(buf: seq<byte>, pieces: seq<seq<byte>>, cap: nat): (r: WriteResult)
    requires |buf| <= cap
    decreases |pieces|
    ensures r.Written? <==> |buf| + |Concat(pieces)| <= cap
    ensures r.Written? ==> r.buf == buf + Concat(pieces)
    ensures r.Overflow? ==> |r.partial| <= cap
    ensures r.Overflow? ==> |r.partial| < |buf + Concat(pieces)|
    ensures r.Overflow? ==> r.partial == (buf + Concat(pieces))[..|r.partial|]
  {
    if |pieces| == 0 then Written(buf)
    else
      assert buf + Concat(pieces) == (buf + pieces[0]) + Concat(pieces[1..]);
      match PushStr(buf, pieces[0], cap)
      case Overflow(p) => Overflow(p)
      case Written(b) => WritePieces(b, pieces[1..], cap)
  }

  lemma UrlPiecesConcat(base: seq<byte>, id: u64, status: bool)
    ensures Concat(UrlPieces(base, id, status)) == UrlText(base, id, status)
  {
    ConcatSix(Ascii("http://"), base, Ascii("/api/"), NatToDecimal(id), Ascii("/"), StatusText(status));
  }

  lemma ConcatSix(p0: seq<byte>, p1: seq<byte>, p2: seq<byte>, p3: seq<byte>, p4: seq<byte>, p5: seq<byte>)
    ensures Concat([p0, p1, p2, p3, p4, p5]) == p0 + p1 + p2 + p3 + p4 + p5
  {
    var none: seq<seq<byte>> := [];
    assert Concat([p5]) == p5 by { assert [p5][1..] == none; }
    assert Concat([p4, p5]) == p4 + p5 by { assert [p4, p5][1..] == [p5]; }
    assert Concat([p3, p4, p5]) == p3 + p4 + p5 by { assert [p3, p4, p5][1..] == [p4, p5]; }
    assert Concat([p2, p3, p4, p5]) == p2 + p3 + p4 + p5 by {
      assert [p2, p3, p4, p5][1..] == [p3, p4, p5];
    }
    assert Concat([p1, p2, p3, p4, p5]) == p1 + p2 + p3 + p4 + p5 by {
      assert [p1, p2, p3, p4, p5][1..] == [p2, p3, p4, p5];
    }
    assert [p0, p1, p2, p3, p4, p5][1..] == [p1, p2, p3, p4, p5];
  }

  /** What building the URL leads to: the URL to send, or a delayed reset. */
  datatype BuildOutcome =
    | Url(text: seq<byte>)
    | ResetAfter(delayMs: nat)

  /** Builds the URL for `base`, `id` and `status`. The outcome is all or
      nothing: either the complete text, within capacity, or (when the
      complete text is longer than the capacity) a reset after the grace
      period, with no URL at all. */
  function BuildUrl(base: seq<byte>, id: u64, status: bool): (r: BuildOutcome)
    ensures r.Url? <==> |UrlText(base, id, status)| <= UrlCapacity
    ensures r.Url? ==> r.text == UrlText(base, id, status) && |r.text| <= UrlCapacity
    ensures r.ResetAfter? ==> r.delayMs == ResetGraceMs
  {
    UrlPiecesConcat(base, id, status);
    match WritePieces([], UrlPieces(base, id, status), UrlCapacity)
    case Written(url) => Url(url)
    case Overflow(_) => ResetAfter(ResetGraceMs)
  }

  /** The length of the URL: 13 bytes of literal text plus the base, the
      digits and the status word. */
  lemma UrlTextLength(base: seq<byte>, id: u64, status: bool)
    ensures |UrlText(base, id, status)| ==
      13 + |base| + |NatToDecimal(id)| + (if status then 4 else 5)
  {
  }

  /** A base of at most 90 bytes always fits, whatever the id and status. */
  lemma ShortBaseAlwaysFits(base: seq<byte>, id: u64, status: bool)
    requires |base| <= 90
    ensures BuildUrl(base, id, status).Url?
  {
    U64DecimalLength(id);
  }

  /** A base of more than 110 bytes never fits, whatever the id and status. */
  lemma LongBaseAlwaysResets(base: seq<byte>, id: u64, status: bool)
    requires |base| > 110
    ensures BuildUrl(base, id, status) == ResetAfter(ResetGraceMs)
  {
  }

  /** "false" is one byte longer than "true": if the URL fits for an open
      sensor it fits for a closed one, and a URL of exactly the capacity
      for a closed sensor overflows for an open one. */
  lemma OverflowDependsOnStatus(base: seq<byte>, id: u64)
    ensures BuildUrl(base, id, false).Url? ==> BuildUrl(base, id, true).Url?
    ensures |UrlText(base, id, true)| == UrlCapacity ==>
      BuildUrl(base, id, true).Url? && BuildUrl(base, id, false).ResetAfter?
  {
  }

  /** The worked example: base "10.0.0.5:3000", id 42, closed. */
  lemma ExampleUrl()
    ensures BuildUrl(Ascii("10.0.0.5:3000"), 42, true) ==
      Url(Ascii("http://10.0.0.5:3000/api/42/true"))
  {
    ExampleUrlText();
  }

  lemma ExampleUrlText()
    ensures UrlText(Ascii("10.0.0.5:3000"), 42, true) == Ascii("http://10.0.0.5:3000/api/42/true")
  {
    ExampleDigits();
    ExampleLiteral();
  }

  /** The bytes of the literals, written out: "/api/" and the two status
      words. */
  lemma LiteralBytes()
    ensures Ascii("/api/") == [47, 97, 112, 105, 47]
    ensures StatusText(true) == [116, 114, 117, 101]
    ensures StatusText(false) == [102, 97, 108, 115, 101]
  {
  }

  lemma ExampleDigits()
    ensures NatToDecimal(42) == Ascii("42")
  {
  }

  lemma ExampleLiteral()
    ensures Ascii("http://10.0.0.5:3000/api/42/true") ==
      Ascii("http://") + Ascii("10.0.0.5:3000") + Ascii("/api/") + Ascii("42") + Ascii("/") + Ascii("true")
  {
  }
}
