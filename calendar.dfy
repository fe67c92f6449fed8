/**
 * The "add to calendar" link: the fixed iCalendar text of the wedding event
 * and the `data:text/calendar` URI (RFC 2397) that carries it.
 *
 * The iCalendar text keeps two departures from RFC 5545: its lines end in a
 * bare line feed instead of CRLF (section 3.1), and the commas inside the
 * LOCATION value are not escaped as TEXT requires (section 3.3.11).
 */
module Calendar {
  import opened Wrappers
  import opened Text
  import opened UriEncoding
  import opened DateFormat

  const ProductId := "-//Carlos y Camila//Wedding Invite//ES"
  const Uid := "carlos-camila-wedding"
  const Summary := "Matrimonio de Carlos & Camila"
  const LocationName := "Terraza Av. Perú 1268"
  const LocationAddress := "Av. Perú 1268, Recoleta, " + "Santiago de Chile"
  const Description :=
    "Celebramos el viaje que comenzó con un " + "“hola” y nos lleva hasta este día. " + "Queremos compartirlo contigo."

  /**
   * The content lines of the template, with its three interpolations as
   * parameters: the DTSTAMP, DTSTART and DTEND values.
   */
  function ContentLines(dtstamp: string, dtstart: string, dtend: string): seq<string> {
    [ "BEGIN:VCALENDAR",
      "VERSION:2.0",
      "PRODID:" + ProductId,
      "BEGIN:VEVENT",
      "UID:" + Uid,
      "DTSTAMP:" + dtstamp,
      "DTSTART:" + dtstart,
      "DTEND:" + dtend,
      "SUMMARY:" + Summary,
      "LOCATION:" + LocationName + ", " + LocationAddress,
      "DESCRIPTION:" + Description,
      "END:VEVENT",
      "END:VCALENDAR" ]
  }

  /** The template literal as written: a line feed before the first line and after the last. */
  function Template(dtstamp: string, dtstart: string, dtend: string): string {
    "\n" + JoinLines(ContentLines(dtstamp, dtstart, dtend)) + "\n"
  }

  /** The content lines of a build at the instant `stamp`; only DTSTAMP depends on it. */
  function IcsLines(stamp: UtcDateTime): seq<string> {
    ContentLines(FormatDate(stamp), FormatDate(EventStart), FormatDate(EventEnd))
  }

  /** The calendar text of a build at the instant `stamp`: the template after `.trim()`. */
  function IcsText(stamp: UtcDateTime): string {
    Trim(Template(FormatDate(stamp), FormatDate(EventStart), FormatDate(EventEnd)))
  }

  /** The fixed values of the template hold no line break. */
  lemma ConstantsPlain()
    ensures IsPlainLine(ProductId) && IsPlainLine(Uid) && IsPlainLine(Summary)
    ensures IsPlainLine(LocationName) && IsPlainLine(LocationAddress) && IsPlainLine(Description)
  {
    ShortConstantsPlain();
    AddressPlain();
    DescriptionPlain();
  }

  lemma ShortConstantsPlain()
    ensures IsPlainLine(ProductId) && IsPlainLine(Uid) && IsPlainLine(Summary) && IsPlainLine(LocationName)
  {
    ProductIdPlain();
    UidPlain();
    SummaryPlain();
    LocationNamePlain();
  }

  lemma ProductIdPlain() ensures IsPlainLine(ProductId) { }
  lemma UidPlain() ensures IsPlainLine(Uid) { }
  lemma SummaryPlain() ensures IsPlainLine(Summary) { }
  lemma LocationNamePlain() ensures IsPlainLine(LocationName) { }

  lemma AddressPlain()
    ensures IsPlainLine(LocationAddress)
  {
    assert IsPlainLine("Av. Perú 1268, Recoleta, ");
    assert IsPlainLine("Santiago de Chile");
    PlainConcat("Av. Perú 1268, Recoleta, ", "Santiago de Chile");
  }

  lemma DescriptionPlain()
    ensures IsPlainLine(Description)
  {
    DescriptionPiecesPlain();
    PlainConcat("Celebramos el viaje que comenzó con un ", "“hola” y nos lleva hasta este día. ");
    PlainConcat("Celebramos el viaje que comenzó con un " + "“hola” y nos lleva hasta este día. ",
                "Queremos compartirlo contigo.");
  }

  lemma DescriptionPiecesPlain()
    ensures IsPlainLine("Celebramos el viaje que comenzó con un ")
    ensures IsPlainLine("“hola” y nos lleva hasta este día. ")
    ensures IsPlainLine("Queremos compartirlo contigo.")
  {
    FirstPiecePlain();
    SecondPiecePlain();
    ThirdPiecePlain();
  }

  lemma FirstPiecePlain() ensures IsPlainLine("Celebramos el viaje que comenzó con un ") { }
  lemma SecondPiecePlain() ensures IsPlainLine("“hola” y nos lleva hasta este día. ") { }
  lemma ThirdPiecePlain() ensures IsPlainLine("Queremos compartirlo contigo.") { }

  lemma ContentLinesPlain(dtstamp: string, dtstart: string, dtend: string)
    requires IsPlainLine(dtstamp) && IsPlainLine(dtstart) && IsPlainLine(dtend)
    ensures forall k :: 0 <= k < |ContentLines(dtstamp, dtstart, dtend)| ==>
              IsPlainLine(ContentLines(dtstamp, dtstart, dtend)[k])
  {
    ConstantsPlain();
    PlainLines(ProductId, Uid, dtstamp, dtstart, dtend, Summary, LocationName, LocationAddress, Description);
  }

  lemma PlainLines(prod: string, uid: string, a: string, b: string, c: string,
                   sum: string, name: string, addr: string, desc: string)
    requires IsPlainLine(prod) && IsPlainLine(uid) && IsPlainLine(a) && IsPlainLine(b) && IsPlainLine(c)
    requires IsPlainLine(sum) && IsPlainLine(name) && IsPlainLine(addr) && IsPlainLine(desc)
    ensures IsPlainLine("PRODID:" + prod) && IsPlainLine("UID:" + uid)
    ensures IsPlainLine("DTSTAMP:" + a) && IsPlainLine("DTSTART:" + b) && IsPlainLine("DTEND:" + c)
    ensures IsPlainLine("SUMMARY:" + sum) && IsPlainLine("LOCATION:" + name + ", " + addr)
    ensures IsPlainLine("DESCRIPTION:" + desc)
  {
    PlainConcat("PRODID:", prod);
    PlainConcat("UID:", uid);
    PlainConcat("DTSTAMP:", a);
    PlainConcat("DTSTART:", b);
    PlainConcat("DTEND:", c);
    PlainConcat("SUMMARY:", sum);
    PlainConcat("LOCATION:", name);
    PlainConcat("LOCATION:" + name, ", ");
    PlainConcat("LOCATION:" + name + ", ", addr);
    PlainConcat("DESCRIPTION:", desc);
  }

  /**
   * With one-line values in its holes, trimming the template leaves exactly
   * the 13 content lines joined by bare line feeds, splitting on line feeds
   * gives them back, and no carriage return appears.
   */
  lemma TemplateTrimmed(dtstamp: string, dtstart: string, dtend: string)
    requires IsPlainLine(dtstamp) && IsPlainLine(dtstart) && IsPlainLine(dtend)
    ensures Trim(Template(dtstamp, dtstart, dtend)) == JoinLines(ContentLines(dtstamp, dtstart, dtend))
    ensures SplitLines(Trim(Template(dtstamp, dtstart, dtend))) == ContentLines(dtstamp, dtstart, dtend)
    ensures NoCarriageReturn(Trim(Template(dtstamp, dtstart, dtend)))
  {
    var lines := ContentLines(dtstamp, dtstart, dtend);
    assert lines[0][0] == 'B' && lines[12][12] == 'R';
    ContentLinesPlain(dtstamp, dtstart, dtend);
    FramedPlainLines(lines);
  }

  /**
   * The calendar text is the 13 lines BEGIN:VCALENDAR ... END:VCALENDAR joined
   * by bare line feeds, with no line break at either end and no carriage
   * return anywhere; splitting it on line feeds gives the lines back.
   */
  lemma IcsTextLines(stamp: UtcDateTime)
    ensures IcsText(stamp) == JoinLines(IcsLines(stamp))
    ensures SplitLines(IcsText(stamp)) == IcsLines(stamp)
    ensures |IcsLines(stamp)| == 13
    ensures IcsLines(stamp)[0] == "BEGIN:VCALENDAR" && IcsLines(stamp)[12] == "END:VCALENDAR"
    ensures IcsText(stamp)[0] != '\n' && IcsText(stamp)[|IcsText(stamp)| - 1] != '\n'
    ensures NoCarriageReturn(IcsText(stamp))
  {
    FormatDatePlain(stamp);
    FormatDatePlain(EventStart);
    FormatDatePlain(EventEnd);
    var a, b, c := FormatDate(stamp), FormatDate(EventStart), FormatDate(EventEnd);
    TemplateTrimmed(a, b, c);
    JoinLinesEnds(ContentLines(a, b, c));
    var body := JoinLines(ContentLines(a, b, c));
    assert body[0] == body[..15][0] == 'B';
    assert body[|body| - 1] == body[|body| - 13..][12] == 'R';
  }

  /**
   * Two builds give the same text exactly when their DTSTAMP instants fall in
   * the same UTC minute: the identifier is fixed and seconds are not written.
   */
  lemma IcsTextSameMinute(a: UtcDateTime, b: UtcDateTime)
    requires WellFormed(a) && WellFormed(b)
    ensures IcsText(a) == IcsText(b) <==> MinuteOf(a) == MinuteOf(b)
  {
    FormatDateSameMinute(a, b);
    if IcsText(a) == IcsText(b) {
      IcsTextLines(a);
      IcsTextLines(b);
      StampLine(FormatDate(a), FormatDate(EventStart), FormatDate(EventEnd));
      StampLine(FormatDate(b), FormatDate(EventStart), FormatDate(EventEnd));
    }
  }

  /** The DTSTAMP value can be read off the sixth line. */
  lemma StampLine(dtstamp: string, dtstart: string, dtend: string)
    ensures ContentLines(dtstamp, dtstart, dtend)[5][8..] == dtstamp
  {
  }

  /** A comma no backslash precedes: an unescaped comma in RFC 5545 TEXT. */
  predicate HasUnescapedComma(s: string) {
    exists i :: 1 <= i < |s| && s[i] == ',' && s[i - 1] != '\\'
  }

  /** The LOCATION line carries the address commas as they are. */
  lemma LocationCommaUnescaped(stamp: UtcDateTime)
    ensures HasUnescapedComma(IcsLines(stamp)[9])
  {
    LocationLine(FormatDate(stamp), FormatDate(EventStart), FormatDate(EventEnd));
  }

  lemma LocationLine(dtstamp: string, dtstart: string, dtend: string)
    ensures HasUnescapedComma(ContentLines(dtstamp, dtstart, dtend)[9])
  {
    var line := ContentLines(dtstamp, dtstart, dtend)[9];
    assert line == "LOCATION:Terraza Av. Perú 1268" + ", " + LocationAddress;
    assert line[30] == ',' && line[29] == '8';
  }

  // ---------------------------------------------------------------------------
  // The data URI

  const DataUriPrefix := "data:text/calendar;charset=utf-8,"

  /** The page's `buildICSLink`, for a build at the instant `stamp`. */
  function IcsLink(stamp: UtcDateTime): string {
    DataUriPrefix + EncodeUriComponent(IcsText(stamp))
  }

  /**
   * The link is the data URI prefix followed by a percent-encoded payload that
   * holds only unreserved characters and '%' and decodes back to the
   * calendar text.
   */
  lemma IcsLinkShape(stamp: UtcDateTime)
    ensures |IcsLink(stamp)| >= |DataUriPrefix| && IcsLink(stamp)[..|DataUriPrefix|] == DataUriPrefix
    ensures forall i :: |DataUriPrefix| <= i < |IcsLink(stamp)| ==> IsUriSafe(IcsLink(stamp)[i])
    ensures DecodeUriComponent(IcsLink(stamp)[|DataUriPrefix|..]) == Some(IcsText(stamp))
  {
    var text := IcsText(stamp);
    DecodeEncode(text);
    PrefixedPayload(DataUriPrefix, EncodeUriComponent(text));
  }

  lemma PrefixedPayload(prefix: string, payload: string)
    requires forall i :: 0 <= i < |payload| ==> IsUriSafe(payload[i])
    ensures (prefix + payload)[..|prefix|] == prefix && (prefix + payload)[|prefix|..] == payload
    ensures forall i :: |prefix| <= i < |prefix + payload| ==> IsUriSafe((prefix + payload)[i])
  {
    assert forall i :: |prefix| <= i < |prefix + payload| ==> (prefix + payload)[i] == payload[i - |prefix|];
  }

  /** Two links are equal exactly when their build instants fall in the same UTC minute. */
  lemma IcsLinkSameMinute(a: UtcDateTime, b: UtcDateTime)
    requires WellFormed(a) && WellFormed(b)
    ensures IcsLink(a) == IcsLink(b) <==> MinuteOf(a) == MinuteOf(b)
  {
    IcsTextSameMinute(a, b);
    IcsLinkShape(a);
    IcsLinkShape(b);
  }
}
