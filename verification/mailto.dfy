/**
 * The contact form's mail draft link: a `mailto:` URI (section 2 of
 * RFC 6068) with an encoded subject and body, and the reading of such a
 * URI back into its recipient and header fields.
 */
module Mailto {
  import opened Wrappers
  import opened PercentEncoding

  const SCHEME: string := "mailto:"
  const RECIPIENT: string := "you@example.com"
  const SUBJECT_PREFIX: string := "Portfolio inquiry from "
  /** The sender named in the subject when the name field is empty. */
  const DEFAULT_SENDER: string := "your website"

  /** The subject line: the name, or the default when the name is empty (`name || "your website"`). */
  function Subject(name: string): (s: string)
    ensures |s| > |SUBJECT_PREFIX| && s[..|SUBJECT_PREFIX|] == SUBJECT_PREFIX
    ensures s[|SUBJECT_PREFIX|..] == if name == "" then DEFAULT_SENDER else name
  {
    SUBJECT_PREFIX + (if name == "" then DEFAULT_SENDER else name)
  }

  /** The body: the message, a blank line, then an em-dash signature with the name and email. */
  function Body(name: string, email: string, message: string): (b: string)
    ensures |b| == |message| + |name| + |email| + 7
    ensures b[..|message|] == message && b[|message|..|message| + 4] == "\n\n\U{2014} "
    ensures b[|message| + 4..|message| + 4 + |name|] == name && b[|b| - 1] == ')'
  {
    message + "\n\n\U{2014} " + name + " (" + email + ")"
  }

  /** One `hfname=hfvalue` field of the query, with the value encoded. */
  function Field(name: string, value: string): string {
    name + "=" + EncodeURIComponent(value)
  }

  /** The `href` of the send button: recipient, then the encoded subject and body. */
  function MailtoUri(name: string, email: string, message: string): (uri: string)
    ensures IsAscii(uri)
  {
    var query := Field("subject", Subject(name)) + "&" + Field("body", Body(name, email, message));
    assert IsAscii(query) by {
      FieldIsAscii("subject", Subject(name));
      FieldIsAscii("body", Body(name, email, message));
      AsciiConcat(Field("subject", Subject(name)), "&");
      AsciiConcat(Field("subject", Subject(name)) + "&", Field("body", Body(name, email, message)));
    }
    AsciiConcat(RECIPIENT, "?");
    AsciiConcat(RECIPIENT + "?", query);
    AsciiConcat(SCHEME, RECIPIENT + "?" + query);
    SCHEME + (RECIPIENT + "?" + query)
  }

  /** The link is the source's template: fixed text with the two encoded values spliced in. */
  lemma MailtoUriTemplate(name: string, email: string, message: string)
    ensures MailtoUri(name, email, message)
      == "mailto:you@example.com?subject=" + EncodeURIComponent(Subject(name))
         + "&body=" + EncodeURIComponent(Body(name, email, message))
  {
    var s, b := EncodeURIComponent(Subject(name)), EncodeURIComponent(Body(name, email, message));
    Regroup(SCHEME, RECIPIENT, "subject", "body", s, b);
    TemplateText();
  }

  lemma TemplateText()
    ensures SCHEME + RECIPIENT + "?" + "subject" + "=" == "mailto:you@example.com?subject="
    ensures "&" + "body" + "=" == "&body="
  {
  }

  lemma Regroup(scheme: string, to: string, n1: string, n2: string, v1: string, v2: string)
    ensures scheme + (to + "?" + ((n1 + "=" + v1) + "&" + (n2 + "=" + v2)))
         == (scheme + to + "?" + n1 + "=") + v1 + ("&" + n2 + "=") + v2
  {
  }

  /** Every character is in the ASCII range, as in a URI. */
  predicate IsAscii(s: string) {
    forall i :: 0 <= i < |s| ==> s[i] as int < 0x80
  }

  lemma AsciiConcat(a: string, b: string)
    requires IsAscii(a) && IsAscii(b)
    ensures IsAscii(a + b)
  {
  }

  lemma FieldIsAscii(name: string, value: string)
    requires forall i :: 0 <= i < |name| ==> IsUnescaped(name[i])
    ensures IsAscii(Field(name, value))
  {
  }

  /** The pieces of `s` between occurrences of `sep`, as JavaScript's `split` gives them. */
  function Split(s: string, sep: char): (parts: seq<string>)
    ensures |parts| >= 1
    ensures forall k :: 0 <= k < |parts| ==> sep !in parts[k]
  {
    if s == [] then [[]]
    else
      var tail := Split(s[1..], sep);
      if s[0] == sep then [[]] + tail
      else [[s[0]] + tail[0]] + tail[1..]
  }

  /** The pieces joined back with `sep` between them. */
  function Join(parts: seq<string>, sep: char): string
    requires |parts| >= 1
  {
    if |parts| == 1 then parts[0] else parts[0] + [sep] + Join(parts[1..], sep)
  }

  /** Joining the pieces of a split gives back the original string. */
  lemma {:induction false} JoinSplit(s: string, sep: char)
    ensures Join(Split(s, sep), sep) == s
  {
    if s != [] {
      JoinSplit(s[1..], sep);
      var tail := Split(s[1..], sep);
      if s[0] != sep && |tail| > 1 {
        assert Split(s, sep)[1..] == tail[1..];
      }
    }
  }

  /** Splitting pieces joined with a separator none of them contains recovers exactly those pieces. */
  lemma {:induction false} SplitJoin(parts: seq<string>, sep: char)
    requires |parts| >= 1
    requires forall k :: 0 <= k < |parts| ==> sep !in parts[k]
    ensures Split(Join(parts, sep), sep) == parts
  {
    if |parts| == 1 {
      SplitWithoutSep(parts[0], sep);
    } else {
      SplitJoin(parts[1..], sep);
      SplitAfterPiece(parts[0], Join(parts[1..], sep), sep);
      assert [parts[0]] + parts[1..] == parts;
    }
  }

  lemma {:induction false} SplitWithoutSep(s: string, sep: char)
    requires sep !in s
    ensures Split(s, sep) == [s]
  {
    if s != [] {
      SplitWithoutSep(s[1..], sep);
      assert [s[0]] + s[1..] == s;
    }
  }

  lemma {:induction false} SplitAfterPiece(a: string, b: string, sep: char)
    requires sep !in a
    ensures Split(a + [sep] + b, sep) == [a] + Split(b, sep)
  {
    if a == [] {
      assert a + [sep] + b == [sep] + b;
      assert ([sep] + b)[1..] == b;
    } else {
      SplitAfterPiece(a[1..], b, sep);
      assert (a + [sep] + b)[1..] == a[1..] + [sep] + b;
      assert [a[0]] + a[1..] == a;
    }
  }

  /** A header field `hfname=hfvalue` of the query. */
  datatype Header = Header(name: string, value: string)

  /** What a mail client reads from a `mailto:` URI: the recipient and the header fields in order. */
  datatype Draft = Draft(to: string, headers: seq<Header>)

  /** One `hfname=hfvalue` field, both sides percent-decoded; `None` without exactly one `=`. */
  function ParseHeader(field: string): Option<Header> {
    var parts := Split(field, '=');
    if |parts| != 2 then None
    else
      match DecodeComponent(parts[0])
      case None => None
      case Some(name) =>
        match DecodeComponent(parts[1])
        case None => None
        case Some(value) => Some(Header(name, value))
  }

  function ParseHeaders(fields: seq<string>): Option<seq<Header>> {
    if fields == [] then Some([])
    else
      match ParseHeader(fields[0])
      case None => None
      case Some(h) =>
        match ParseHeaders(fields[1..])
        case None => None
        case Some(hs) => Some([h] + hs)
  }

  /**
   * Reads a `mailto:` URI: the part before `?` is the percent-decoded
   * recipient, and the part after it is split on `&` into header fields.
   */
  function ParseMailto(uri: string): Option<Draft> {
    if |uri| < |SCHEME| || uri[..|SCHEME|] != SCHEME then None
    else ParseAddress(uri[|SCHEME|..])
  }

  /** The part of a `mailto:` URI after the scheme. A second `?` is not allowed. */
  function ParseAddress(rest: string): Option<Draft> {
    var parts := Split(rest, '?');
    match DecodeComponent(parts[0])
    case None => None
    case Some(to) =>
      if |parts| == 1 then Some(Draft(to, []))
      else if |parts| > 2 then None
      else
        match ParseHeaders(Split(parts[1], '&'))
        case None => None
        case Some(headers) => Some(Draft(to, headers))
  }

  lemma ParseField(name: string, value: string)
    requires forall i :: 0 <= i < |name| ==> IsUnescaped(name[i])
    ensures ParseHeader(Field(name, value)) == Some(Header(name, value))
  {
    var e := EncodeURIComponent(value);
    assert '=' !in name && '=' !in e;
    assert Join([name, e], '=') == name + "=" + e;
    SplitJoin([name, e], '=');
    DecodePlain(name);
    DecodeEncode(value);
  }

  /** The text after the scheme, `to?query`, reads as its decoded recipient and the fields of its query. */
  lemma ParseAddressParts(to: string, query: string, recipient: string, headers: seq<Header>)
    requires '?' !in to && '?' !in query
    requires DecodeComponent(to) == Some(recipient)
    requires ParseHeaders(Split(query, '&')) == Some(headers)
    ensures ParseAddress(to + "?" + query) == Some(Draft(recipient, headers))
  {
    assert to + "?" + query == Join([to, query], '?');
    SplitJoin([to, query], '?');
  }

  /** A URI `mailto:to?query` reads as its decoded recipient and the fields of its query. */
  lemma ParseMailtoParts(to: string, query: string, recipient: string, headers: seq<Header>)
    requires '?' !in to && '?' !in query
    requires DecodeComponent(to) == Some(recipient)
    requires ParseHeaders(Split(query, '&')) == Some(headers)
    ensures ParseMailto(SCHEME + (to + "?" + query)) == Some(Draft(recipient, headers))
  {
    ParseAddressParts(to, query, recipient, headers);
    var rest := to + "?" + query;
    assert (SCHEME + rest)[..|SCHEME|] == SCHEME;
    assert (SCHEME + rest)[|SCHEME|..] == rest;
  }

  /** A query of two fields reads as those two headers. */
  lemma ParseTwoHeaders(f1: string, f2: string, h1: Header, h2: Header)
    requires '&' !in f1 && '&' !in f2
    requires ParseHeader(f1) == Some(h1) && ParseHeader(f2) == Some(h2)
    ensures ParseHeaders(Split(f1 + "&" + f2, '&')) == Some([h1, h2])
  {
    assert f1 + "&" + f2 == Join([f1, f2], '&');
    SplitJoin([f1, f2], '&');
    var fields := [f1, f2];
    assert fields[1..] == [f2];
    assert [f2][1..] == [] && [f2][0] == f2;
    assert ParseHeaders([]) == Some([]);
    assert [h2] + [] == [h2];
    assert ParseHeaders([f2]) == Some([h2]);
    assert fields[0] == f1;
    assert ParseHeaders(fields) == Some([h1] + [h2]);
    assert [h1] + [h2] == [h1, h2];
  }

  /**
   * A link to the recipient with a `subject` and a `body` field reads back
   * as exactly those two headers, whatever text they hold.
   */
  lemma SubjectAndBodyRoundTrip(subject: string, body: string)
    ensures ParseMailto(SCHEME + (RECIPIENT + "?" + (Field("subject", subject) + "&" + Field("body", body))))
      == Some(Draft(RECIPIENT, [Header("subject", subject), Header("body", body)]))
  {
    SubjectAndBodyQuery(subject, body);
    RecipientIsPlain();
    ParseMailtoParts(RECIPIENT, Field("subject", subject) + "&" + Field("body", body), RECIPIENT,
      [Header("subject", subject), Header("body", body)]);
  }

  /** The query `subject=…&body=…` holds no `?` and reads as the two headers. */
  lemma SubjectAndBodyQuery(subject: string, body: string)
    ensures var query := Field("subject", subject) + "&" + Field("body", body);
      '?' !in query && ParseHeaders(Split(query, '&')) == Some([Header("subject", subject), Header("body", body)])
  {
    FieldDelimiters("subject", subject);
    FieldDelimiters("body", body);
    ParseField("subject", subject);
    ParseField("body", body);
    ParseTwoHeaders(Field("subject", subject), Field("body", body), Header("subject", subject), Header("body", body));
  }

  /** The recipient address needs no escaping and holds no `?`. */
  lemma RecipientIsPlain()
    ensures '?' !in RECIPIENT && DecodeComponent(RECIPIENT) == Some(RECIPIENT)
  {
    assert forall i :: 0 <= i < |RECIPIENT| ==> RECIPIENT[i] as int < 0x80 && RECIPIENT[i] != '%' && RECIPIENT[i] != '?';
    DecodePlain(RECIPIENT);
  }

  /**
   * The draft link reads back as exactly the recipient and two header
   * fields, `subject` and `body`, holding the templated texts, whatever the
   * three inputs contain.
   */
  lemma MailtoRoundTrip(name: string, email: string, message: string)
    ensures ParseMailto(MailtoUri(name, email, message))
      == Some(Draft(RECIPIENT, [Header("subject", Subject(name)), Header("body", Body(name, email, message))]))
  {
    SubjectAndBodyRoundTrip(Subject(name), Body(name, email, message));
  }

  /** A field of a plain name and an encoded value holds neither `&` nor `?`. */
  lemma FieldDelimiters(name: string, value: string)
    requires forall i :: 0 <= i < |name| ==> IsUnescaped(name[i])
    ensures '&' !in Field(name, value) && '?' !in Field(name, value)
  {
    var f := Field(name, value);
    assert forall i :: 0 <= i < |f| ==> IsUnescaped(f[i]) || f[i] == '%' || f[i] == '=';
  }

  /** The draft for the name "Jane Doe", the email "jane@x.com" and the message "Hello". */
  lemma JaneDoeDraft(name: string, email: string, message: string)
    requires name == "Jane Doe" && email == "jane@x.com" && message == "Hello"
    ensures ParseMailto(MailtoUri(name, email, message))
      == Some(Draft("you@example.com", [
           Header("subject", "Portfolio inquiry from Jane Doe"),
           Header("body", "Hello\n\n\U{2014} Jane Doe (jane@x.com)")]))
  {
    JaneDoeTexts(name, email, message);
    MailtoRoundTrip(name, email, message);
  }

  lemma JaneDoeTexts(name: string, email: string, message: string)
    requires name == "Jane Doe" && email == "jane@x.com" && message == "Hello"
    ensures Subject(name) == "Portfolio inquiry from Jane Doe"
    ensures Body(name, email, message) == "Hello\n\n\U{2014} Jane Doe (jane@x.com)"
  {
  }

  /** With every field empty the subject falls back to the default sender and the body keeps its frame. */
  lemma EmptyFormDraft(name: string, email: string, message: string)
    requires name == "" && email == "" && message == ""
    ensures ParseMailto(MailtoUri(name, email, message))
      == Some(Draft("you@example.com", [
           Header("subject", "Portfolio inquiry from your website"),
           Header("body", "\n\n\U{2014}  ()")]))
  {
    EmptyFormTexts(name, email, message);
    MailtoRoundTrip(name, email, message);
  }

  lemma EmptyFormTexts(name: string, email: string, message: string)
    requires name == "" && email == "" && message == ""
    ensures Subject(name) == "Portfolio inquiry from your website"
    ensures Body(name, email, message) == "\n\n\U{2014}  ()"
  {
    assert Subject(name) == SUBJECT_PREFIX + DEFAULT_SENDER;
    assert message + "\n\n\U{2014} " == "\n\n\U{2014} ";
  }
}
