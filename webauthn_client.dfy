/** The browser side's conversions between byte buffers and base 64 text:
    standard base 64 through `btoa`/`atob`, the URL-safe form of section 5 of
    RFC 4648 built on top of it by swapping two characters of the alphabet and
    dropping or restoring the `=` padding, and the `allowCredentials` list a
    verification request carries.  An exception thrown by `atob` is `None`. */
module WebAuthnClient {
  import opened Wrappers
  import opened Base64

  // ----------------------------------------------------------- text helpers

  /** `s.replace(/x/g, y)` for a single character `x`. */
  function ReplaceAll(s: string, x: char, y: char): (r: string)
    ensures |r| == |s|
    ensures forall i :: 0 <= i < |s| && s[i] == x ==> r[i] == y
    ensures forall i :: 0 <= i < |s| && s[i] != x ==> r[i] == s[i]
  {
    seq(|s|, i requires 0 <= i < |s| => if s[i] == x then y else s[i])
  }

  /** `k` padding characters. */
  function Eqs(k: nat): (p: string)
    ensures |p| == k && forall i :: 0 <= i < k ==> p[i] == '='
  {
    seq(k, _ => '=')
  }

  /** How many `=` make a length a multiple of four. */
  function PadCount(n: nat): (k: nat)
    ensures k <= 3 && (n + k) % 4 == 0
  {
    (4 - n % 4) % 4
  }

  /** The two swaps `base64UrlToArrayBuffer` makes are section 5's reverse translation. */
  lemma ToStdIsFromUrl(u: string)
    ensures ReplaceAll(ReplaceAll(u, '-', '+'), '_', '/') == MapFromUrl(u)
  {
  }

  /** The two swaps `arrayBufferToBase64Url` makes are section 5's translation. */
  lemma ToUrlIsMapToUrl(s: string)
    ensures ReplaceAll(ReplaceAll(s, '+', '-'), '/', '_') == MapToUrl(s)
  {
  }

  // ---------------------------------------------------- standard base 64

  /** `arrayBufferToBase64`: one char per byte, with the byte as its code, then
      `btoa`, which cannot fail on such a string. */
  method ArrayBufferToBase64(buffer: array<Byte>) returns (r: string)
    ensures r == Encode(buffer[..])
  {
    var binary := "";
    var i := 0;
    while i < buffer.Length
      invariant 0 <= i <= buffer.Length
      invariant binary == Binary(buffer[..i])
    {
      binary := binary + [buffer[i] as char];
      i := i + 1;
    }
    assert buffer[..i] == buffer[..];
    assert Codes(binary) == buffer[..];
    var encoded := Btoa(binary);
    r := encoded.value;
  }

  /** `base64ToArrayBuffer`: `atob`, then one byte per char code in a new buffer. */
  method Base64ToArrayBuffer(s: string) returns (r: Option<array<Byte>>)
    ensures r.None? <==> Atob(s).None?
    ensures r.Some? ==> fresh(r.value) && r.value[..] == Codes(Atob(s).value)
  {
    var decoded := Atob(s);
    if decoded.None? {
      return None;
    }
    var binaryString := decoded.value;
    var bytes := new Byte[|binaryString|];
    var i := 0;
    while i < |binaryString|
      invariant 0 <= i <= |binaryString|
      invariant forall j :: 0 <= j < i ==> bytes[j] == binaryString[j] as int
    {
      bytes[i] := binaryString[i] as int;
      i := i + 1;
    }
    return Some(bytes);
  }

  /** Decoding a buffer's encoding gives the buffer's bytes back. */
  lemma BufferRoundTrip(b: seq<Byte>)
    ensures Atob(Encode(b)).Some? && Codes(Atob(Encode(b)).value) == b
  {
    AtobEncode(b);
  }

  // --------------------------------------------------- URL-safe base 64

  /** The standard text `base64UrlToArrayBuffer` hands to `atob`. */
  function Padded(u: string): (p: string)
    ensures |p| % 4 == 0 && |u| <= |p| <= |u| + 3
  {
    var s := ReplaceAll(ReplaceAll(u, '-', '+'), '_', '/');
    s + Eqs(PadCount(|s|))
  }

  /** The bytes `base64UrlToArrayBuffer` returns, or `None` when `atob` throws. */
  function DecodeUrl(u: string): Option<seq<Byte>> {
    match Atob(Padded(u))
    case None => None
    case Some(binary) => Some(Codes(binary))
  }

  /** The text `arrayBufferToBase64Url` returns for a buffer holding `b`. */
  function EncodeUrl(b: seq<Byte>): string {
    RemoveAllPad(ReplaceAll(ReplaceAll(Encode(b), '+', '-'), '/', '_'))
  }

  /** The padding loop of `base64UrlToArrayBuffer`. */
  method PadBase64(s: string) returns (p: string)
    ensures p == s + Eqs(PadCount(|s|))
    ensures |p| % 4 == 0 && |s| <= |p| <= |s| + 3
  {
    p := s;
    ghost var k := 0;
    while |p| % 4 != 0
      invariant k <= PadCount(|s|) && p == s + Eqs(k)
      decreases PadCount(|s|) - k
    {
      p := p + "=";
      k := k + 1;
    }
    assert k == PadCount(|s|);
  }

  /** `base64UrlToArrayBuffer`: swap `-` and `_` back, pad, and decode. */
  method Base64UrlToArrayBuffer(u: string) returns (r: Option<array<Byte>>)
    ensures r.None? <==> DecodeUrl(u).None?
    ensures r.Some? ==> fresh(r.value) && r.value[..] == DecodeUrl(u).value
  {
    var base64 := ReplaceAll(ReplaceAll(u, '-', '+'), '_', '/');
    base64 := PadBase64(base64);
    r := Base64ToArrayBuffer(base64);
  }

  /** `arrayBufferToBase64Url`: encode, swap `+` and `/`, and drop every `=`. */
  method ArrayBufferToBase64Url(buffer: array<Byte>) returns (r: string)
    ensures r == EncodeUrl(buffer[..])
  {
    var base64 := ArrayBufferToBase64(buffer);
    r := RemoveAllPad(ReplaceAll(ReplaceAll(base64, '+', '-'), '/', '_'));
  }

  /** The URL-safe text is the translated data characters: no `+`, `/` or `=`
      is left, and every character is in the URL-safe alphabet. */
  lemma EncodeUrlAlphabet(b: seq<Byte>)
    ensures EncodeUrl(b) == MapToUrl(Data(b))
    ensures forall i :: 0 <= i < |EncodeUrl(b)| ==> IsUrlChar(EncodeUrl(b)[i])
    ensures forall i :: 0 <= i < |EncodeUrl(b)| ==> EncodeUrl(b)[i] !in {'+', '/', '='}
  {
    ToUrlIsMapToUrl(Encode(b));
    UnpaddedUrl(b);
  }

  /** Restoring the padding of the data characters gives the standard encoding. */
  lemma PaddedData(b: seq<Byte>)
    ensures Padded(MapToUrl(Data(b))) == Encode(b)
  {
    var d := Data(b);
    ToStdIsFromUrl(MapToUrl(d));
    UrlRoundTrip(d);
    var p := Padding(|b|);
    assert PadCount(|d|) == |p|;
    assert Eqs(|p|) == p;
  }

  /** Round trip: the bytes of any buffer come back from its URL-safe text. */
  lemma UrlRoundTripBytes(b: seq<Byte>)
    ensures DecodeUrl(EncodeUrl(b)) == Some(b)
  {
    EncodeUrlAlphabet(b);
    PaddedData(b);
    BufferRoundTrip(b);
  }

  // ------------------------------------------------------ allowCredentials

  datatype Descriptor = Descriptor(id: seq<Byte>, kind: string)

  /** What `verifyCredential` puts under `allowCredentials`: nothing, the
      descriptors, or the exception of an id `atob` rejects. */
  datatype Allow = Unset | AllowList(descriptors: seq<Descriptor>) | DecodeFailed

  /** Some id of the list does not decode. */
  predicate SomeIdFails(ids: seq<string>) {
    exists i :: 0 <= i < |ids| && DecodeUrl(ids[i]).None?
  }

  /** A non-empty list has an id that fails exactly when its first id fails
      or some later one does. */
  lemma SomeIdFailsCons(ids: seq<string>)
    requires ids != []
    ensures SomeIdFails(ids) <==> DecodeUrl(ids[0]).None? || SomeIdFails(ids[1..])
  {
    if SomeIdFails(ids[1..]) {
      var i :| 0 <= i < |ids[1..]| && DecodeUrl(ids[1..][i]).None?;
      assert ids[i + 1] == ids[1..][i];
    }
    if SomeIdFails(ids) && DecodeUrl(ids[0]).Some? {
      var i :| 0 <= i < |ids| && DecodeUrl(ids[i]).None?;
      assert ids[1..][i - 1] == ids[i];
    }
  }

  /** `allowedCredentials.map(cred => ({id: …, type: 'public-key'}))`. */
  function Descriptors(ids: seq<string>): (r: Option<seq<Descriptor>>)
    ensures r.None? <==> SomeIdFails(ids)
    ensures r.Some? ==> |r.value| == |ids|
    ensures r.Some? ==> forall i :: 0 <= i < |ids| ==>
              r.value[i] == Descriptor(DecodeUrl(ids[i]).value, "public-key")
  {
    if ids == [] then Some([])
    else
      var first := DecodeUrl(ids[0]);
      var rest := Descriptors(ids[1..]);
      SomeIdFailsCons(ids);
      if first.None? || rest.None? then None
      else Some([Descriptor(first.value, "public-key")] + rest.value)
  }

  /** The `allowCredentials` step of `verifyCredential`, for the list of ids of
      the allowed credentials (`null` is `None`). */
  function AllowCredentials(allowed: Option<seq<string>>): (r: Allow)
    ensures r.Unset? <==> allowed.None? || allowed.value == []
    ensures r.DecodeFailed? <==> allowed.Some? && SomeIdFails(allowed.value)
    ensures r.AllowList? ==> |r.descriptors| == |allowed.value| > 0
    ensures r.AllowList? ==> forall i :: 0 <= i < |allowed.value| ==>
              r.descriptors[i] == Descriptor(DecodeUrl(allowed.value[i]).value, "public-key")
  {
    if allowed.None? || |allowed.value| == 0 then Unset
    else match Descriptors(allowed.value)
      case None => DecodeFailed
      case Some(ds) => AllowList(ds)
  }

  /** Ids produced by `arrayBufferToBase64Url` always decode, so a list of them
      gives one descriptor per id carrying that id's bytes. */
  lemma AllowEncodedIds(ids: seq<seq<Byte>>)
    requires |ids| > 0
    ensures var r := AllowCredentials(Some(seq(|ids|, i requires 0 <= i < |ids| => EncodeUrl(ids[i]))));
      r.AllowList? && forall i :: 0 <= i < |ids| ==> r.descriptors[i] == Descriptor(ids[i], "public-key")
  {
    var texts := seq(|ids|, i requires 0 <= i < |ids| => EncodeUrl(ids[i]));
    forall i | 0 <= i < |ids| ensures DecodeUrl(texts[i]) == Some(ids[i]) {
      UrlRoundTripBytes(ids[i]);
    }
  }
}
