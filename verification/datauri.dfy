/** `Base64ImageField.to_internal_value` (backend/api/serializers.py): an image
    sent inline as a `data:` URL (RFC 2397, section 3) is cut at ";base64," into
    its header and its base64 payload (RFC 4648, section 4), and becomes a file
    named after the media subtype; anything else goes on to the image field
    unchanged. Decoding the payload and validating the image are not modelled:
    the result records what is handed on. */
module DataUri {

  import opened Common
  import opened Text

  const ImagePrefix: string := "data:image"
  const Base64Marker: string := ";base64,"

  /** What the client sent for an image field: a string, or an uploaded file. */
  datatype ImageData = Inline(s: string) | Upload(fileName: string)

  /** What goes on to `ImageField.to_internal_value`: the data as it came, or a
      file named `name` whose content is the (undecoded) payload. */
  datatype Internal = PassedOn(data: ImageData) | Decoded(name: string, payload: string)

  /** The `ValueError` that unpacking a split into `format, imgstr` raises when it
      does not give exactly two pieces. */
  datatype UnpackError = UnpackError

  predicate IsImageDataUrl(data: ImageData)
  {
    data.Inline? && StartsWith(data.s, ImagePrefix)
  }

  function ToInternalValue(data: ImageData): (r: Result<Internal, UnpackError>)
    ensures !IsImageDataUrl(data) ==> r == Ok(PassedOn(data))
    ensures IsImageDataUrl(data) ==> (r.Err? <==> |Split(data.s, Base64Marker)| != 2)
    ensures r.Ok? && r.value.Decoded? ==>
              && IsImageDataUrl(data)
              && |r.value.payload| + |Base64Marker| <= |data.s|
              && (var s, p := data.s, r.value.payload;
                  var header := s[..|s| - |p| - |Base64Marker|];
                  && s == header + Base64Marker + p
                  && !Contains(header, Base64Marker) && !Contains(p, Base64Marker)
                  && r.value.name == "temp." + LastPiece(header, "/"))
  {
    if IsImageDataUrl(data) then
      var parts := Split(data.s, Base64Marker);
      if |parts| != 2 then Err(UnpackError)
      else
        JoinSplit(data.s, Base64Marker);
        SplitPiecesAvoidSeparator(data.s, Base64Marker);
        assert Join(parts, Base64Marker) == parts[0] + Base64Marker + parts[1];
        Ok(Decoded("temp." + LastPiece(parts[0], "/"), parts[1]))
    else Ok(PassedOn(data))
  }

  /** The extension taken from the header never contains "/", and it ends the header. */
  lemma ExtensionEndsHeader(header: string)
    ensures var ext := LastPiece(header, "/");
            !Contains(ext, "/") && |ext| <= |header| && header[|header| - |ext|..] == ext
  {
  }

  /** Building a data URL from a header and a base64 payload, neither of which
      contains ';' (no base64 digit does), and handing it to the field recovers
      the payload and names the file after the text behind the header's last "/". */
  lemma DataUrlRoundTrip(header: string, payload: string)
    requires StartsWith(header, ImagePrefix)
    requires CharFree(header, ';') && CharFree(payload, ';')
    ensures ToInternalValue(Inline(header + Base64Marker + payload))
            == Ok(Decoded("temp." + LastPiece(header, "/"), payload))
  {
    var s := header + Base64Marker + payload;
    assert s[..|ImagePrefix|] == header[..|ImagePrefix|];
    SplitTwo(header, payload, Base64Marker);
  }

  /** An image sent inline as "data:image/<subtype>;base64,<payload>" becomes the
      file "temp.<subtype>" carrying the payload, for any subtype free of '/'
      and ';' and any payload free of ';' (no base64 digit is). */
  lemma SubtypeNamesFile(subtype: string, payload: string)
    requires CharFree(subtype, '/') && CharFree(subtype, ';') && CharFree(payload, ';')
    ensures ToInternalValue(Inline(ImagePrefix + "/" + subtype + Base64Marker + payload))
            == Ok(Decoded("temp." + subtype, payload))
  {
    var h := ImagePrefix + "/" + subtype;
    assert h[..|ImagePrefix|] == ImagePrefix;
    assert CharFree(ImagePrefix, '/') && CharFree(ImagePrefix, ';') && CharFree("/", ';');
    CharFreeConcat(ImagePrefix, "/", ';');
    CharFreeConcat(ImagePrefix + "/", subtype, ';');
    DataUrlRoundTrip(h, payload);
    SplitTwo(ImagePrefix, subtype, "/");
  }

  /** A string that names an image but lacks the base64 marker is refused. */
  lemma MarkerMissingRefused()
    ensures ToInternalValue(Inline("data:image/png")).Err?
  {
    assert CharFree("data:image/png", ';');
    SplitWithoutSeparator("data:image/png", Base64Marker);
  }
}
