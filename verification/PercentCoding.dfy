/** Percent-encoding of texts (section 2.1 of RFC 3986), which the engine leaves to its
    library: any pair of functions, and what it takes for one to carry a text. */
module PercentCoding {
  import opened Texts
  import opened Numerals

  const TAB: QChar := 9

  datatype Codec = Codec(encode: Text -> Text, decode: Text -> Text)

  /** Every plus sign written as its percent-encoding. */
  function PlusEscaped(s: Text): Text {
    if s == [] then [] else (if s[0] == PLUS then [37, 50, 66] else [s[0]]) + PlusEscaped(s[1..])
  }

  /** The text survives encoding and decoding, with plus signs escaped in between or not,
      and its encoding holds no tab and no newline. */
  ghost predicate Carries(codec: Codec, text: Text) {
    var s := codec.encode(text);
    codec.decode(s) == text && codec.decode(PlusEscaped(s)) == text && TAB !in s && NEWLINE !in s
  }
}
