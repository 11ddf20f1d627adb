/**
 * MultipartRequest: a Volley request that collects an ordered list of parts
 * and serialises them as a multipart/form-data body (delimiters as in
 * section 5.1.1 of RFC 2046, Content-Disposition headers as in section 4.2
 * of RFC 7578).
 *
 * The framing is specified by the pure function Serialize; the request's
 * GetBody method builds the same bytes with a loop that appends to a buffer.
 */
module Multipart {
  import opened JavaBytes
  import opened HexString
  import opened SeqFacts

  datatype Option<+T> = None | Some(value: T)

  /** String.getBytes() under the platform's default charset. */
  type Charset = string -> seq<Byte>

  /**
   * A part of the body. A null filename is allowed for a file part (its
   * constructor's documentation says so); a null part is modelled by
   * Option<Part> where the request accepts one.
   */
  datatype Part =
    | FormPart(name: string, value: string)
    | FilePart(name: string, mimeType: string, filename: Option<string>, data: seq<Byte>)
  {
    /** getMimeType(): a form part is built with the empty MIME type. */
    function MimeType(): (m: string)
      ensures FormPart? ==> m == ""
      ensures FilePart? ==> m == mimeType
    {
      match this
      case FormPart(_, _) => ""
      case FilePart(_, m, _, _) => m
    }

    /** getData(): a form part encodes its value; a file part hands back its array unchanged. */
    function Data(charset: Charset): (d: seq<Byte>)
      ensures FormPart? ==> d == charset(value)
      ensures FilePart? ==> d == data
    {
      match this
      case FormPart(_, v) => charset(v)
      case FilePart(_, _, _, d) => d
    }
  }

  const Dashes := "--"
  const NewLine := "\r\n"

  /** What Java's string concatenation writes for a possibly-null string. */
  function JavaString(s: Option<string>): (r: string)
    ensures s.Some? ==> r == s.value
    ensures s.None? ==> r == "null"
  {
    match s
    case Some(t) => t
    case None => "null"
  }

  /** The delimiter line opening every part. */
  function Delimiter(boundary: string): string
  {
    Dashes + boundary + NewLine
  }

  /** The close-delimiter line ending the body. */
  function CloseDelimiter(boundary: string): string
  {
    Dashes + boundary + Dashes + NewLine
  }

  /** The Content-Disposition header line of a part. */
  function Disposition(p: Part): string
  {
    match p
    case FormPart(n, _) =>
      "Content-Disposition: form-data; name=\"" + n + "\"" + NewLine
    case FilePart(n, _, f, _) =>
      "Content-Disposition: form-data; name=\"" + n + "\"; filename=\"" + JavaString(f) + "\"" + NewLine
  }

  /** The Content-type header line of a file part. */
  function ContentTypeLine(mimeType: string): string
  {
    "Content-type: " + mimeType + NewLine
  }

  /** A part's block: its header text, its data verbatim, and CRLF. */
  function Block(boundary: string, p: Part, charset: Charset): seq<Byte>
  {
    WriteBytes(HeaderText(boundary, p)) + p.Data(charset) + WriteBytes(NewLine)
  }

  /** The blocks of all parts, in list order. */
  function Blocks(boundary: string, parts: seq<Part>, charset: Charset): seq<Byte>
  {
    if parts == [] then []
    else Block(boundary, parts[0], charset) + Blocks(boundary, parts[1..], charset)
  }

  /** The whole body: every part's block, then the close delimiter. */
  function Serialize(boundary: string, parts: seq<Part>, charset: Charset): seq<Byte>
  {
    Blocks(boundary, parts, charset) + WriteBytes(CloseDelimiter(boundary))
  }

  /** The text that precedes a part's data: delimiter, header lines, blank line. */
  function HeaderText(boundary: string, p: Part): string
  {
    match p
    case FormPart(_, _) => Delimiter(boundary) + Disposition(p) + NewLine
    case FilePart(_, m, _, _) => Delimiter(boundary) + Disposition(p) + ContentTypeLine(m) + NewLine
  }

  const ContentTypePrefix := "multipart/form-data;boundary="

  /** The Content-Type header value for a body framed with this boundary. */
  function ContentType(boundary: string): (ct: string)
    ensures BoundaryParam(ct) == Some(boundary)
  {
    ContentTypePrefix + boundary
  }

  /** The boundary a multipart/form-data Content-Type value announces, if it has that form. */
  function BoundaryParam(ct: string): (b: Option<string>)
    ensures b.Some? <==> |ct| >= |ContentTypePrefix| && ct[..|ContentTypePrefix|] == ContentTypePrefix
    ensures b.Some? ==> ct == ContentTypePrefix + b.value
  {
    if |ct| >= |ContentTypePrefix| && ct[..|ContentTypePrefix|] == ContentTypePrefix
    then Some(ct[|ContentTypePrefix|..])
    else None
  }

  /**
   * A part's block is what the serialiser's successive writes produce: the
   * delimiter line, the header lines, a blank line, the data, and CRLF.
   */
  lemma BlockWrites(boundary: string, p: Part, charset: Charset)
    ensures p.FormPart? ==>
      Block(boundary, p, charset)
        == WriteBytes(Delimiter(boundary)) + WriteBytes(Disposition(p)) + WriteBytes(NewLine)
           + p.Data(charset) + WriteBytes(NewLine)
    ensures p.FilePart? ==>
      Block(boundary, p, charset)
        == WriteBytes(Delimiter(boundary)) + WriteBytes(Disposition(p)) + WriteBytes(ContentTypeLine(p.mimeType))
           + WriteBytes(NewLine) + p.Data(charset) + WriteBytes(NewLine)
  {
    var d := Delimiter(boundary);
    match p
    case FormPart(_, _) =>
      WriteBytesAppend3(d, Disposition(p), NewLine);
    case FilePart(_, m, _, _) =>
      WriteBytesAppend4(d, Disposition(p), ContentTypeLine(m), NewLine);
  }

  /** Every block opens with the delimiter line. */
  lemma BlockStartsWithDelimiter(boundary: string, p: Part, charset: Charset)
    ensures var b := Block(boundary, p, charset);
            var d := WriteBytes(Delimiter(boundary));
            |d| <= |b| && b[..|d|] == d
  {
    var dl := Delimiter(boundary);
    var rest := match p
      case FormPart(_, _) => Disposition(p) + NewLine
      case FilePart(_, m, _, _) => Disposition(p) + ContentTypeLine(m) + NewLine;
    assert HeaderText(boundary, p) == dl + rest;
    WriteBytesAppend(dl, rest);
    PrefixOf(WriteBytes(dl), WriteBytes(rest) + p.Data(charset) + WriteBytes(NewLine));
  }

  /** The data bytes sit verbatim between a block's header bytes and its final CRLF. */
  lemma DataInBlock(boundary: string, p: Part, charset: Charset)
    ensures var b := Block(boundary, p, charset);
            var h := |WriteBytes(HeaderText(boundary, p))|;
            h + 2 <= |b| && b[h..|b| - 2] == p.Data(charset) && b[|b| - 2..] == [13, 10]
  {
    assert WriteBytes(NewLine) == [13, 10];
  }

  /** Serialising two lists one after the other is serialising their concatenation. */
  lemma {:induction false} BlocksAppend(boundary: string, xs: seq<Part>, ys: seq<Part>, charset: Charset)
    ensures Blocks(boundary, xs + ys, charset) == Blocks(boundary, xs, charset) + Blocks(boundary, ys, charset)
  {
    if xs == [] {
      assert xs + ys == ys;
    } else {
      assert (xs + ys)[0] == xs[0];
      assert (xs + ys)[1..] == xs[1..] + ys;
      BlocksAppend(boundary, xs[1..], ys, charset);
    }
  }

  /** The blocks of one more part of the list: the blocks so far, then that part's block. */
  lemma BlocksPrefix(boundary: string, parts: seq<Part>, charset: Charset, i: nat)
    requires i < |parts|
    ensures Blocks(boundary, parts[..i + 1], charset)
              == Blocks(boundary, parts[..i], charset) + Block(boundary, parts[i], charset)
  {
    assert parts[..i + 1] == parts[..i] + [parts[i]];
    BlocksAppend(boundary, parts[..i], [parts[i]], charset);
    BlocksOne(boundary, parts[i], charset);
  }

  /** The blocks of a one-part list are that part's block. */
  lemma BlocksOne(boundary: string, p: Part, charset: Charset)
    ensures Blocks(boundary, [p], charset) == Block(boundary, p, charset)
  {
    assert Blocks(boundary, [p], charset) == Block(boundary, p, charset) + [];
  }

  /** Where the k-th part's block begins in the body. */
  function Offset(boundary: string, parts: seq<Part>, charset: Charset, k: nat): nat
    requires k <= |parts|
  {
    |Blocks(boundary, parts[..k], charset)|
  }

  /** The blocks before the k-th part, its block, and the rest make up the whole list's blocks. */
  lemma BlocksAround(boundary: string, parts: seq<Part>, charset: Charset, k: nat)
    requires k < |parts|
    ensures Blocks(boundary, parts, charset)
              == Blocks(boundary, parts[..k], charset) + Block(boundary, parts[k], charset)
                 + Blocks(boundary, parts[k + 1..], charset)
  {
    assert parts == parts[..k + 1] + parts[k + 1..];
    BlocksAppend(boundary, parts[..k + 1], parts[k + 1..], charset);
    BlocksPrefix(boundary, parts, charset, k);
  }

  /**
   * Parts appear in list order: the k-th part's block sits in the body right
   * after the blocks of the parts before it.
   */
  lemma BlockAt(boundary: string, parts: seq<Part>, charset: Charset, k: nat)
    requires k < |parts|
    ensures var body := Serialize(boundary, parts, charset);
            var o := Offset(boundary, parts, charset, k);
            var b := Block(boundary, parts[k], charset);
            o + |b| <= |body| && body[o..o + |b|] == b
  {
    var body := Serialize(boundary, parts, charset);
    var before := Blocks(boundary, parts[..k], charset);
    var b := Block(boundary, parts[k], charset);
    var after := Blocks(boundary, parts[k + 1..], charset);
    var close := WriteBytes(CloseDelimiter(boundary));
    BlocksAround(boundary, parts, charset, k);
    Assoc(before + b, after, close);
    SliceMiddle(before, b, after + close);
  }

  /**
   * The k-th part's data can be read back, byte for byte, from the body at a
   * position fixed by the parts before it and its own header text.
   */
  lemma DataAt(boundary: string, parts: seq<Part>, charset: Charset, k: nat)
    requires k < |parts|
    ensures var body := Serialize(boundary, parts, charset);
            var start := Offset(boundary, parts, charset, k) + |WriteBytes(HeaderText(boundary, parts[k]))|;
            var d := parts[k].Data(charset);
            start + |d| <= |body| && body[start..start + |d|] == d
  {
    var body := Serialize(boundary, parts, charset);
    var o := Offset(boundary, parts, charset, k);
    var h := WriteBytes(HeaderText(boundary, parts[k]));
    var d := parts[k].Data(charset);
    BlockAt(boundary, parts, charset, k);
    assert Block(boundary, parts[k], charset) == h + d + WriteBytes(NewLine);
    SliceInside(body, o, h, d, WriteBytes(NewLine));
  }

  /**
   * The boundary the Content-Type value announces is the one in every
   * delimiter of the body and in its close delimiter, which ends the body.
   */
  lemma ContentTypeMatchesBody(boundary: string, parts: seq<Part>, charset: Charset)
    ensures var body := Serialize(boundary, parts, charset);
            var announced := BoundaryParam(ContentType(boundary));
            && announced.Some?
            && (forall k :: 0 <= k < |parts| ==>
                  var o := Offset(boundary, parts, charset, k);
                  var d := WriteBytes(Delimiter(announced.value));
                  o + |d| <= |body| && body[o..o + |d|] == d)
            && var c := WriteBytes(CloseDelimiter(announced.value));
               |c| <= |body| && body[|body| - |c|..] == c
  {
    var body := Serialize(boundary, parts, charset);
    var d := WriteBytes(Delimiter(boundary));
    forall k | 0 <= k < |parts|
      ensures var o := Offset(boundary, parts, charset, k);
              o + |d| <= |body| && body[o..o + |d|] == d
    {
      DelimiterAt(boundary, parts, charset, k);
    }
    SliceLast(Blocks(boundary, parts, charset), WriteBytes(CloseDelimiter(boundary)));
  }

  /** The k-th part's block opens with the delimiter line. */
  lemma DelimiterAt(boundary: string, parts: seq<Part>, charset: Charset, k: nat)
    requires k < |parts|
    ensures var body := Serialize(boundary, parts, charset);
            var o := Offset(boundary, parts, charset, k);
            var d := WriteBytes(Delimiter(boundary));
            o + |d| <= |body| && body[o..o + |d|] == d
  {
    var body := Serialize(boundary, parts, charset);
    var o := Offset(boundary, parts, charset, k);
    var b := Block(boundary, parts[k], charset);
    var d := WriteBytes(Delimiter(boundary));
    BlockAt(boundary, parts, charset, k);
    BlockStartsWithDelimiter(boundary, parts[k], charset);
    SliceOfSlice(body, o, o + |b|, 0, |d|);
  }

  /**
   * No part's opening delimiter reads as the close delimiter: where the close
   * delimiter has its third and fourth dashes, a delimiter line has CRLF.
   */
  lemma OpeningIsNotClose(boundary: string, parts: seq<Part>, charset: Charset, k: nat)
    requires k < |parts|
    ensures var body := Serialize(boundary, parts, charset);
            var o := Offset(boundary, parts, charset, k);
            var c := WriteBytes(CloseDelimiter(boundary));
            o + |c| > |body| || body[o..o + |c|] != c
  {
    var body := Serialize(boundary, parts, charset);
    var o := Offset(boundary, parts, charset, k);
    var d := WriteBytes(Delimiter(boundary));
    var c := WriteBytes(CloseDelimiter(boundary));
    var i := |boundary| + 2;
    DelimiterAt(boundary, parts, charset, k);
    assert Delimiter(boundary)[i] == '\r';
    assert CloseDelimiter(boundary)[i] == '-';
    assert body[o + i] == body[o..o + |d|][i] == 13;
    if o + |c| <= |body| {
      assert body[o..o + |c|][i] != c[i];
    }
  }

  /**
   * Read as ISO 8859-1 text, a form part's block is the delimiter line, the
   * Content-Disposition line naming the field, a blank line, the value's
   * bytes and CRLF; no Content-type line is written for it.
   */
  lemma FormBlockText(boundary: string, name: string, value: string, charset: Charset)
    requires IsLatin1(boundary) && IsLatin1(name)
    ensures Latin1Decode(Block(boundary, FormPart(name, value), charset))
              == Delimiter(boundary) + Disposition(FormPart(name, value)) + NewLine
                 + Latin1Decode(charset(value)) + NewLine
  {
    var p := FormPart(name, value);
    HeaderLatin1(boundary, p);
    DecodeFramed(HeaderText(boundary, p), charset(value));
  }

  /**
   * Read as ISO 8859-1 text, a file part's block is the delimiter line, the
   * Content-Disposition line naming the field and the file (a null filename
   * reads "null"), the Content-type line, a blank line, the data and CRLF.
   */
  lemma FileBlockText(boundary: string, name: string, mimeType: string, filename: Option<string>,
                      data: seq<Byte>, charset: Charset)
    requires IsLatin1(boundary) && IsLatin1(name) && IsLatin1(mimeType) && IsLatin1(JavaString(filename))
    ensures var p := FilePart(name, mimeType, filename, data);
            Latin1Decode(Block(boundary, p, charset))
              == Delimiter(boundary) + Disposition(p) + ContentTypeLine(mimeType) + NewLine
                 + Latin1Decode(data) + NewLine
  {
    var p := FilePart(name, mimeType, filename, data);
    HeaderLatin1(boundary, p);
    DecodeFramed(HeaderText(boundary, p), data);
  }

  /** Header text built from ISO 8859-1 pieces is ISO 8859-1. */
  lemma HeaderLatin1(boundary: string, p: Part)
    requires IsLatin1(boundary) && IsLatin1(p.name)
    requires p.FilePart? ==> IsLatin1(p.mimeType) && IsLatin1(JavaString(p.filename))
    ensures IsLatin1(HeaderText(boundary, p))
  {
    LatinConcat3(Dashes, boundary, NewLine);
    DispositionLatin1(p);
    if p.FilePart? {
      LatinConcat3("Content-type: ", p.mimeType, NewLine);
      LatinConcat3(Delimiter(boundary), Disposition(p), ContentTypeLine(p.mimeType));
      LatinConcat3(Delimiter(boundary) + Disposition(p), ContentTypeLine(p.mimeType), NewLine);
    } else {
      LatinConcat3(Delimiter(boundary), Disposition(p), NewLine);
    }
  }

  lemma DispositionLatin1(p: Part)
    requires IsLatin1(p.name)
    requires p.FilePart? ==> IsLatin1(JavaString(p.filename))
    ensures IsLatin1(Disposition(p))
  {
    if p.FilePart? {
      FileDispositionLatin1(p.name, JavaString(p.filename));
    } else {
      LatinConcat3("Content-Disposition: form-data; name=\"", p.name, "\"" + NewLine);
    }
  }

  lemma FileDispositionLatin1(name: string, filename: string)
    requires IsLatin1(name) && IsLatin1(filename)
    ensures IsLatin1("Content-Disposition: form-data; name=\"" + name + "\"; filename=\"" + filename + "\"" + NewLine)
  {
    var lead := "Content-Disposition: form-data; name=\"";
    LiteralsLatin1();
    LatinConcat3(lead, name, "\"; filename=\"");
    LatinConcat3(lead + name + "\"; filename=\"", filename, "\"" + NewLine);
  }

  /** The fixed text of the header lines is ISO 8859-1. */
  lemma LiteralsLatin1()
    ensures IsLatin1("Content-Disposition: form-data; name=\"")
    ensures IsLatin1("\"; filename=\"")
    ensures IsLatin1("\"" + NewLine)
  {
  }

  /** Header text written byte by byte, then raw bytes, then CRLF, read back as ISO 8859-1 text. */
  lemma DecodeFramed(header: string, data: seq<Byte>)
    requires IsLatin1(header)
    ensures Latin1Decode(WriteBytes(header) + data + WriteBytes(NewLine)) == header + Latin1Decode(data) + NewLine
  {
    DecodeWriteBytes(header);
    Latin1DecodeAppend(WriteBytes(header) + data, WriteBytes(NewLine));
    Latin1DecodeAppend(WriteBytes(header), data);
  }

  /** ISO 8859-1 text joined to ISO 8859-1 text stays ISO 8859-1. */
  lemma LatinConcat3(a: string, b: string, c: string)
    requires IsLatin1(a) && IsLatin1(b) && IsLatin1(c)
    ensures IsLatin1(a + b + c)
  {
    var s := a + b + c;
    forall i | 0 <= i < |s| ensures s[i] as int < 256 {
      if i < |a| {
        assert s[i] == a[i];
      } else if i < |a| + |b| {
        assert s[i] == b[i - |a|];
      } else {
        assert s[i] == c[i - |a| - |b|];
      }
    }
  }

  /** The close delimiter's bytes: "--", the boundary, "--", CRLF. */
  lemma CloseDelimiterBytes(boundary: string)
    ensures WriteBytes(CloseDelimiter(boundary)) == [45, 45] + WriteBytes(boundary) + [45, 45, 13, 10]
  {
    WriteBytesAppend4(Dashes, boundary, Dashes, NewLine);
  }

  /**
   * With no parts the body is the close delimiter alone; for an ISO 8859-1
   * boundary it reads back as exactly that text.
   */
  lemma EmptyBody(boundary: string, charset: Charset)
    requires IsLatin1(boundary)
    ensures Serialize(boundary, [], charset) == [45, 45] + WriteBytes(boundary) + [45, 45, 13, 10]
    ensures Latin1Decode(Serialize(boundary, [], charset)) == "--" + boundary + "--\r\n"
  {
    CloseDelimiterBytes(boundary);
    CloseDelimiterText(boundary);
  }

  /** For an ISO 8859-1 boundary the close delimiter's bytes read back as its text. */
  lemma CloseDelimiterText(boundary: string)
    requires IsLatin1(boundary)
    ensures Latin1Decode(WriteBytes(CloseDelimiter(boundary))) == CloseDelimiter(boundary)
  {
    var close := CloseDelimiter(boundary);
    assert IsLatin1(close) by {
      forall i | 0 <= i < |close| ensures close[i] as int < 256 {
        if 2 <= i < 2 + |boundary| {
          assert close[i] == boundary[i - 2];
        }
      }
    }
    DecodeWriteBytes(close);
  }

  /** Every boundary a request gets, a canonical hex numeral, is ISO 8859-1 text. */
  lemma HexBoundaryLatin1(boundary: string)
    requires IsCanonicalHex(boundary)
    ensures IsLatin1(boundary)
  {
  }

  /**
   * Two parts, a form field and a small text file, under any boundary a
   * request can have: the body reads as the two blocks and the close
   * delimiter, piece by piece as they are written.
   */
  lemma TwoPartBody(boundary: string)
    requires IsCanonicalHex(boundary)
    ensures Latin1Decode(Serialize(boundary, [FormPart("field1", "value1"),
                                              FilePart("file1", "text/plain", Some("a.txt"), [104, 105])], WriteBytes))
            == (("--" + boundary + "\r\n") + ("Content-Disposition: form-data; name=\"" + "field1" + "\"" + "\r\n")
                + "\r\n" + "value1" + "\r\n")
               + (("--" + boundary + "\r\n")
                  + ("Content-Disposition: form-data; name=\"" + "file1" + "\"; filename=\"" + "a.txt" + "\"" + "\r\n")
                  + ("Content-type: " + "text/plain" + "\r\n") + "\r\n" + "hi" + "\r\n")
               + ("--" + boundary + "--" + "\r\n")
  {
    var form := FormPart("field1", "value1");
    var file := FilePart("file1", "text/plain", Some("a.txt"), [104, 105]);
    var b1 := Block(boundary, form, WriteBytes);
    var b2 := Block(boundary, file, WriteBytes);
    var close := WriteBytes(CloseDelimiter(boundary));
    HexBoundaryLatin1(boundary);
    SerializeTwo(boundary, form, file, WriteBytes);
    Latin1DecodeAppend(b1 + b2, close);
    Latin1DecodeAppend(b1, b2);
    FormExampleText(boundary);
    FileExampleText(boundary);
    CloseDelimiterText(boundary);
  }

  /** The body of a two-part list: both blocks, then the close delimiter. */
  lemma SerializeTwo(boundary: string, p: Part, q: Part, charset: Charset)
    ensures Serialize(boundary, [p, q], charset)
            == Block(boundary, p, charset) + Block(boundary, q, charset) + WriteBytes(CloseDelimiter(boundary))
  {
    assert [p, q][1..] == [q];
    BlocksOne(boundary, q, charset);
  }

  lemma FormExampleText(boundary: string)
    requires IsLatin1(boundary)
    ensures Latin1Decode(Block(boundary, FormPart("field1", "value1"), WriteBytes))
            == ("--" + boundary + "\r\n") + ("Content-Disposition: form-data; name=\"" + "field1" + "\"" + "\r\n")
               + "\r\n" + "value1" + "\r\n"
  {
    ExampleNamesLatin1();
    FormBlockText(boundary, "field1", "value1", WriteBytes);
    DecodeWriteBytes("value1");
  }

  lemma FileExampleText(boundary: string)
    requires IsLatin1(boundary)
    ensures Latin1Decode(Block(boundary, FilePart("file1", "text/plain", Some("a.txt"), [104, 105]), WriteBytes))
            == ("--" + boundary + "\r\n")
               + ("Content-Disposition: form-data; name=\"" + "file1" + "\"; filename=\"" + "a.txt" + "\"" + "\r\n")
               + ("Content-type: " + "text/plain" + "\r\n") + "\r\n" + "hi" + "\r\n"
  {
    ExampleNamesLatin1();
    FileBlockText(boundary, "file1", "text/plain", Some("a.txt"), [104, 105], WriteBytes);
    assert Latin1Decode([104, 105]) == "hi";
  }

  lemma ExampleNamesLatin1()
    ensures IsLatin1("field1") && IsLatin1("value1")
    ensures IsLatin1("file1") && IsLatin1("text/plain") && IsLatin1("a.txt")
  {
  }

  /**
   * A request: the parts added so far, a boundary fixed when it is built,
   * the caller's headers, and the platform charset used for form values.
   */
  class MultipartRequest {
    const boundary: string
    const headers: Option<map<string, string>>
    const charset: Charset
    var parts: seq<Part>

    /** The body the request currently stands for. */
    ghost function Body(): seq<Byte>
      reads this
    {
      Serialize(boundary, parts, charset)
    }

    /** The boundary is Long.toHexString of the clock value read at construction. */
    constructor (millis: Long, headers: Option<map<string, string>>, charset: Charset)
      ensures boundary == ToHexString(millis)
      ensures IsCanonicalHex(boundary) && |boundary| <= 16
      ensures this.headers == headers && this.charset == charset
      ensures parts == []
    {
      boundary := ToHexString(millis);
      this.headers := headers;
      this.charset := charset;
      parts := [];
    }

    /** Appends a part; a null part is ignored. */
    method AddPart(part: Option<Part>)
      modifies this`parts
      ensures part.None? ==> parts == old(parts) && Body() == old(Body())
      ensures part.Some? ==> parts == old(parts) + [part.value]
      ensures part.Some? ==>
        Body() == Blocks(boundary, old(parts), charset) + Block(boundary, part.value, charset)
                  + WriteBytes(CloseDelimiter(boundary))
    {
      if part.Some? {
        parts := parts + [part.value];
        BlocksAppend(boundary, old(parts), [part.value], charset);
        BlocksOne(boundary, part.value, charset);
      }
    }

    /** getBodyContentType(): announces the request's boundary. */
    function BodyContentType(): (ct: string)
      ensures BoundaryParam(ct) == Some(boundary)
      ensures ct == ContentType(boundary)
    {
      ContentTypePrefix + boundary
    }

    /** getBody(): writes every part's block in list order, then the close delimiter. */
    method GetBody() returns (body: seq<Byte>)
      ensures body == Serialize(boundary, parts, charset)
    {
      var ps := parts;
      var out: seq<Byte> := [];
      var i := 0;
      while i < |ps|
        invariant 0 <= i <= |ps|
        invariant out == Blocks(boundary, ps[..i], charset)
      {
        var part := ps[i];
        ghost var written := out;
        BlockWrites(boundary, part, charset);
        out := out + WriteBytes(Delimiter(boundary));
        match part {
          case FormPart(_, _) =>
            out := out + WriteBytes(Disposition(part));
            out := out + WriteBytes(NewLine);
            out := out + part.Data(charset);
            out := out + WriteBytes(NewLine);
            AppendFive(written, WriteBytes(Delimiter(boundary)), WriteBytes(Disposition(part)),
                       WriteBytes(NewLine), part.Data(charset), WriteBytes(NewLine));
          case FilePart(_, mimeType, _, _) =>
            out := out + WriteBytes(Disposition(part));
            out := out + WriteBytes(ContentTypeLine(mimeType));
            out := out + WriteBytes(NewLine);
            out := out + part.Data(charset);
            out := out + WriteBytes(NewLine);
            AppendSix(written, WriteBytes(Delimiter(boundary)), WriteBytes(Disposition(part)),
                      WriteBytes(ContentTypeLine(mimeType)), WriteBytes(NewLine), part.Data(charset),
                      WriteBytes(NewLine));
        }
        BlocksPrefix(boundary, ps, charset, i);
        i := i + 1;
      }
      assert ps[..i] == ps;
      out := out + WriteBytes(CloseDelimiter(boundary));
      body := out;
    }

    /** getHeaders(): the caller's headers when given, otherwise Volley's defaults. */
    function GetHeaders(defaults: map<string, string>): (h: map<string, string>)
      ensures headers.Some? ==> h == headers.value
      ensures headers.None? ==> h == defaults
    {
      match headers
      case Some(m) => m
      case None => defaults
    }
  }

  /**
   * A transport that asks for the body twice (a retry) with no part added in
   * between gets the same bytes both times.
   */
  method ResendBody(request: MultipartRequest) returns (first: seq<Byte>, second: seq<Byte>)
    ensures first == second
    ensures first == Serialize(request.boundary, request.parts, request.charset)
  {
    first := request.GetBody();
    second := request.GetBody();
  }
}
