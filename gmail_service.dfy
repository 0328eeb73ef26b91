/**
 * The Gmail service layer: the token-refresh decision taken before the Gmail API is used,
 * the search query built for a fetch, the decoding of one Gmail API message (format "full")
 * into an email record, and the all-or-nothing fetch loop. The Gmail API itself and the
 * OAuth library are parameters: `refreshed` is what a token refresh yields (None when it
 * raises), `buildOk` whether the API client could be built, and a `Mailbox` answers the
 * list and get calls (None when the call raises).
 */
module GmailService {
  import opened Wrappers
  import opened Strings

  /** An instant, as a number of clock ticks. */
  type Time = int

  const PlainText: string := "text/plain"
  const Html: string := "text/html"

  // ---------------------------------------------------------------------------
  // Accounts and the token-refresh decision
  // ---------------------------------------------------------------------------

  /** What a refresh of the OAuth credentials yields. */
  datatype Credentials = Credentials(token: string, expiry: Option<Time>)

  /** A connected Gmail account: a row of the accounts table, updated in place. */
  class GmailAccount {
    var id: int
    var email: string
    var accessToken: string
    var refreshToken: string
    var tokenExpiry: Option<Time>
    var lastSync: Option<Time>
    var status: string
    var userId: int

    /** A newly connected account: active, never synchronised. */
    constructor (id: int, email: string, accessToken: string, refreshToken: string,
                 tokenExpiry: Option<Time>, userId: int)
      ensures this.id == id && this.email == email && this.userId == userId
      ensures this.accessToken == accessToken && this.refreshToken == refreshToken
      ensures this.tokenExpiry == tokenExpiry
      ensures lastSync == None && status == "active"
    {
      this.id := id;
      this.email := email;
      this.accessToken := accessToken;
      this.refreshToken := refreshToken;
      this.tokenExpiry := tokenExpiry;
      this.lastSync := None;
      this.status := "active";
      this.userId := userId;
    }
  }

  /** The stored token must be refreshed exactly when an expiry is stored and lies before now. */
  predicate NeedsRefresh(expiry: Option<Time>, now: Time) {
    expiry.Some? && expiry.value < now
  }

  /** Outcome of `get_gmail_service`: a client, no client (building failed), or the refresh raised. */
  datatype ServiceOutcome = Service | NoService | RefreshRaised

  function ServiceFor(expiry: Option<Time>, now: Time, refreshed: Option<Credentials>, buildOk: bool): ServiceOutcome {
    if NeedsRefresh(expiry, now) && refreshed.None? then RefreshRaised
    else if buildOk then Service
    else NoService
  }

  /**
   * `get_gmail_service`: when the stored token has expired, refresh it and store the new
   * token and expiry in the account; then build the API client.
   */
  method GetGmailService(account: GmailAccount, now: Time, refreshed: Option<Credentials>, buildOk: bool)
    returns (r: ServiceOutcome)
    modifies account
    ensures r == ServiceFor(old(account.tokenExpiry), now, refreshed, buildOk)
    ensures r == RefreshRaised <==> NeedsRefresh(old(account.tokenExpiry), now) && refreshed.None?
    ensures NeedsRefresh(old(account.tokenExpiry), now) && refreshed.Some? ==>
              account.accessToken == refreshed.value.token && account.tokenExpiry == refreshed.value.expiry
    ensures !(NeedsRefresh(old(account.tokenExpiry), now) && refreshed.Some?) ==>
              account.accessToken == old(account.accessToken) && account.tokenExpiry == old(account.tokenExpiry)
    ensures unchanged(account`id, account`email, account`refreshToken, account`lastSync, account`status, account`userId)
  {
    if NeedsRefresh(account.tokenExpiry, now) {
      if refreshed.None? {
        return RefreshRaised;
      }
      account.accessToken := refreshed.value.token;
      account.tokenExpiry := refreshed.value.expiry;
    }
    r := if buildOk then Service else NoService;
  }

  // ---------------------------------------------------------------------------
  // The search query
  // ---------------------------------------------------------------------------

  datatype Date = Date(year: nat, month: nat, day: nat)

  /** A date as Python's `datetime` admits it. */
  type CalendarDate = d: Date | 1 <= d.year <= 9999 && 1 <= d.month <= 12 && 1 <= d.day <= 31
    witness Date(1, 1, 1)

  function Pow10(n: nat): (r: nat)
    ensures r > 0
  {
    if n == 0 then 1 else 10 * Pow10(n - 1)
  }

  predicate AllDigits(s: string) {
    forall i :: 0 <= i < |s| ==> '0' <= s[i] <= '9'
  }

  /** The last `width` decimal digits of `n`, zero-padded on the left. */
  function Digits(n: nat, width: nat): (s: string)
    ensures |s| == width && AllDigits(s)
  {
    if width == 0 then "" else Digits(n / 10, width - 1) + [('0' as int + n % 10) as char]
  }

  /** The number a string of decimal digits denotes. */
  function DigitsValue(s: string): nat
    requires AllDigits(s)
  {
    if |s| == 0 then 0 else DigitsValue(s[..|s| - 1]) * 10 + (s[|s| - 1] as int - '0' as int)
  }

  lemma {:induction false} DigitsRoundTrip(n: nat, width: nat)
    requires n < Pow10(width)
    ensures DigitsValue(Digits(n, width)) == n
  {
    if width > 0 {
      assert n / 10 < Pow10(width - 1);
      DigitsRoundTrip(n / 10, width - 1);
      var s := Digits(n, width);
      assert s[..|s| - 1] == Digits(n / 10, width - 1);
    }
  }

  /** `strftime("%Y/%m/%d")`. */
  function FormatDate(d: CalendarDate): string {
    Digits(d.year, 4) + "/" + Digits(d.month, 2) + "/" + Digits(d.day, 2)
  }

  /** Reads a `YYYY/MM/DD` string back; the partner of FormatDate. */
  function ParseDate(s: string): Option<Date> {
    if |s| == 10 && s[4] == '/' && s[7] == '/' && AllDigits(s[..4]) && AllDigits(s[5..7]) && AllDigits(s[8..])
    then Some(Date(DigitsValue(s[..4]), DigitsValue(s[5..7]), DigitsValue(s[8..])))
    else None
  }

  /** The Gmail search query: the caller's query, narrowed by `after:` when a date is given. */
  function BuildQuery(query: string, sinceDate: Option<CalendarDate>): string {
    match sinceDate
    case None => query
    case Some(d) => query + " after:" + FormatDate(d)
  }

  /**
   * Without a date the query is passed on unchanged; with one, the query is kept as a
   * prefix, followed by " after:" and ten characters that read back as exactly that date.
   */
  lemma BuildQuerySpec(query: string, sinceDate: Option<CalendarDate>)
    ensures sinceDate.None? ==> BuildQuery(query, sinceDate) == query
    ensures sinceDate.Some? ==>
      var q := BuildQuery(query, sinceDate);
      |q| == |query| + 17 && q[..|query|] == query && q[|query|..|query| + 7] == " after:" &&
      ParseDate(q[|query| + 7..]) == Some(sinceDate.value)
  {
    if sinceDate.Some? {
      var d := sinceDate.value;
      var q := BuildQuery(query, sinceDate);
      var t := FormatDate(d);
      assert q[|query| + 7..] == t;
      assert t[..4] == Digits(d.year, 4) && t[5..7] == Digits(d.month, 2) && t[8..] == Digits(d.day, 2);
      DigitsRoundTrip(d.year, 4);
      DigitsRoundTrip(d.month, 2);
      DigitsRoundTrip(d.day, 2);
    }
  }

  // ---------------------------------------------------------------------------
  // Gmail API messages and their decoding
  // ---------------------------------------------------------------------------

  /** One entry of `payload.headers`. */
  datatype Header = Header(name: string, value: string)

  /** A top-level message part; `data` is None when its body has no "data" key. */
  datatype Part = Part(mimeType: string, filename: Option<string>, data: Option<string>)

  /** A payload body; `data` is None when it has no "data" key. */
  datatype Body = Body(data: Option<string>)

  /** `payload`; `parts` and `body` are None when the key is absent. */
  datatype Payload = Payload(mimeType: string, headers: seq<Header>, parts: Option<seq<Part>>, body: Option<Body>)

  /** A message as `messages().get(format="full")` returns it. */
  datatype GmailMessage = GmailMessage(id: string, threadId: string, internalDate: int, payload: Payload)

  /** The record `fetch_emails` builds per message; `receivedAt` keeps the raw `internalDate`. */
  datatype EmailData = EmailData(
    gmailId: string, threadId: string, subject: string, senderName: string, senderEmail: string,
    receivedAt: int, bodyText: string, bodyHtml: string, hasAttachments: bool)

  /** The header's name, lower-cased, is `name`. */
  predicate NameIs(h: Header, name: string) {
    Lower(h.name) == name
  }

  /**
   * The value of the first header whose name lower-cases to `name`, or "" when there is none.
   */
  function FindHeader(headers: seq<Header>, name: string): (r: string)
    ensures (forall i :: 0 <= i < |headers| ==> !NameIs(headers[i], name)) ==> r == ""
    ensures forall i :: (0 <= i < |headers| && NameIs(headers[i], name) &&
                         (forall j :: 0 <= j < i ==> !NameIs(headers[j], name))) ==> r == headers[i].value
  {
    if |headers| == 0 then ""
    else if NameIs(headers[0], name) then headers[0].value
    else
      var r := FindHeader(headers[1..], name);
      assert forall i :: 1 <= i < |headers| ==> headers[i] == headers[1..][i - 1];
      r
  }

  datatype Sender = Sender(name: string, email: string)

  /** Splits a From value "Name <address>" into its display name and address. */
  function ParseSender(from: string): Sender {
    if '<' in from && '>' in from then
      var parts := Split(from, '<');
      Sender(Strip(parts[0]), StripChars(parts[1], {'>'}))
    else Sender("", from)
  }

  /**
   * With both brackets present, the name is the stripped text before the first '<' and the
   * address is the text between the first and the second '<' (or the end) with '>' trimmed
   * from both ends; it holds no '<'. Otherwise the name is empty and the address is the
   * whole From value.
   */
  lemma ParseSenderSpec(from: string)
    ensures !('<' in from && '>' in from) ==> ParseSender(from) == Sender("", from)
    ensures '<' in from && '>' in from ==>
      var i := IndexOf(from, '<');
      var rest := from[i + 1..];
      var between := if '<' in rest then rest[..IndexOf(rest, '<')] else rest;
      ParseSender(from) == Sender(Strip(from[..i]), StripChars(between, {'>'})) && '<' !in ParseSender(from).email
  {
    if '<' in from && '>' in from {
      var i := IndexOf(from, '<');
      var rest := from[i + 1..];
      var between := if '<' in rest then rest[..IndexOf(rest, '<')] else rest;
      SplitFirstTwo(from, '<');
      assert '<' !in between;
      var a, b := StripCharsShape(between, {'>'});
      assert ParseSender(from) == Sender(Strip(from[..i]), between[a..b]);
    }
  }

  function DataOrEmpty(p: Part): string {
    match p.data
    case Some(d) => d
    case None => ""
  }

  /** The data of the last part of the given MIME type, or "" when there is none. */
  function LastData(parts: seq<Part>, mime: string): string {
    if |parts| == 0 then ""
    else if parts[|parts| - 1].mimeType == mime then DataOrEmpty(parts[|parts| - 1])
    else LastData(parts[..|parts| - 1], mime)
  }

  /** Reading the "data" of every text/plain and text/html part succeeds. */
  predicate TextPartsHaveData(parts: seq<Part>) {
    forall i :: 0 <= i < |parts| && (parts[i].mimeType == PlainText || parts[i].mimeType == Html) ==> parts[i].data.Some?
  }

  /** With no part of the given type, LastData is "". */
  lemma {:induction false} LastDataAbsent(parts: seq<Part>, mime: string)
    requires forall i :: 0 <= i < |parts| ==> parts[i].mimeType != mime
    ensures LastData(parts, mime) == ""
    decreases |parts|
  {
    if |parts| > 0 {
      var init := parts[..|parts| - 1];
      assert forall i :: 0 <= i < |init| ==> init[i] == parts[i];
      LastDataAbsent(init, mime);
    }
  }

  /** LastData is the data of the last part of the given type; every other part is ignored. */
  lemma {:induction false} LastDataIsLast(parts: seq<Part>, mime: string, i: nat)
    requires i < |parts| && parts[i].mimeType == mime
    requires forall j :: i < j < |parts| ==> parts[j].mimeType != mime
    ensures LastData(parts, mime) == DataOrEmpty(parts[i])
    decreases |parts|
  {
    if i < |parts| - 1 {
      var init := parts[..|parts| - 1];
      assert forall j :: 0 <= j < |init| ==> init[j] == parts[j];
      LastDataIsLast(init, mime, i);
    }
  }

  /**
   * The loop over the parts: every text/plain part overwrites the plain body and every
   * text/html part the HTML body. None when a text part has no "data" (the lookup raises).
   */
  method ExtractPartBodies(parts: seq<Part>) returns (r: Option<(string, string)>)
    ensures r.None? <==> !TextPartsHaveData(parts)
    ensures r.Some? ==> r.value == (LastData(parts, PlainText), LastData(parts, Html))
  {
    var bodyText, bodyHtml := "", "";
    for i := 0 to |parts|
      invariant TextPartsHaveData(parts[..i])
      invariant bodyText == LastData(parts[..i], PlainText) && bodyHtml == LastData(parts[..i], Html)
    {
      var part := parts[i];
      assert parts[..i + 1][..i] == parts[..i];
      if part.mimeType == PlainText {
        if part.data.None? {
          return None;
        }
        bodyText := part.data.value;
      } else if part.mimeType == Html {
        if part.data.None? {
          return None;
        }
        bodyHtml := part.data.value;
      }
    }
    assert parts[..|parts|] == parts;
    r := Some((bodyText, bodyHtml));
  }

  /** A part carries an attachment when it has a non-empty filename. */
  predicate IsAttachment(p: Part) {
    p.filename.Some? && p.filename.value != ""
  }

  /** The attachment scan: stops at the first part with a non-empty filename. */
  method ScanForAttachment(parts: seq<Part>) returns (found: bool)
    ensures found <==> exists i :: 0 <= i < |parts| && IsAttachment(parts[i])
  {
    found := false;
    var i := 0;
    while i < |parts|
      invariant 0 <= i <= |parts|
      invariant forall j :: 0 <= j < i ==> !IsAttachment(parts[j])
    {
      if IsAttachment(parts[i]) {
        found := true;
        break;
      }
      i := i + 1;
    }
  }

  /** The two bodies of a payload, or None when reading a needed "data" key raises. */
  function PayloadBodies(p: Payload): Option<(string, string)> {
    match p.parts
    case Some(parts) =>
      if TextPartsHaveData(parts) then Some((LastData(parts, PlainText), LastData(parts, Html))) else None
    case None =>
      match p.body
      case None => Some(("", ""))
      case Some(b) =>
        if p.mimeType == PlainText then (if b.data.Some? then Some((b.data.value, "")) else None)
        else if p.mimeType == Html then (if b.data.Some? then Some(("", b.data.value)) else None)
        else Some(("", ""))
  }

  /** A payload without parts sets at most the body of its own MIME type. */
  lemma SinglePartBodies(p: Payload)
    requires p.parts.None?
    ensures PayloadBodies(p).Some? ==> var (text, html) := PayloadBodies(p).value;
      (p.mimeType != PlainText ==> text == "") && (p.mimeType != Html ==> html == "") &&
      (p.body.Some? && p.mimeType == PlainText ==> Some(text) == p.body.value.data) &&
      (p.body.Some? && p.mimeType == Html ==> Some(html) == p.body.value.data)
    ensures PayloadBodies(p).None? <==> p.body.Some? && p.body.value.data.None? && (p.mimeType == PlainText || p.mimeType == Html)
  {
  }

  /** The record built for one message, or None when decoding it raises. */
  function Decode(msg: GmailMessage): Option<EmailData> {
    var p := msg.payload;
    var sender := ParseSender(FindHeader(p.headers, "from"));
    match PayloadBodies(p)
    case None => None
    case Some(bodies) =>
      Some(EmailData(msg.id, msg.threadId, FindHeader(p.headers, "subject"), sender.name, sender.email,
                     msg.internalDate, bodies.0, bodies.1,
                     p.parts.Some? && exists i :: 0 <= i < |p.parts.value| && IsAttachment(p.parts.value[i])))
  }

  /** A message without parts never has attachments; decoding only fails on a missing "data". */
  lemma DecodeFacts(msg: GmailMessage)
    ensures Decode(msg).None? <==> PayloadBodies(msg.payload).None?
    ensures Decode(msg).Some? ==> var e := Decode(msg).value;
      e.gmailId == msg.id && e.threadId == msg.threadId &&
      (msg.payload.parts.None? ==> !e.hasAttachments)
  {
  }

  /** Decoding one message as the fetch loop does it. */
  method DecodeMessage(msg: GmailMessage) returns (r: Option<EmailData>)
    ensures r == Decode(msg)
  {
    var p := msg.payload;
    var subject := FindHeader(p.headers, "subject");
    var fromHeader := FindHeader(p.headers, "from");
    var sender := ParseSender(fromHeader);
    var bodyText, bodyHtml := "", "";
    if p.parts.Some? {
      var bodies := ExtractPartBodies(p.parts.value);
      if bodies.None? {
        return None;
      }
      bodyText, bodyHtml := bodies.value.0, bodies.value.1;
    } else if p.body.Some? {
      if p.mimeType == PlainText {
        if p.body.value.data.None? {
          return None;
        }
        bodyText := p.body.value.data.value;
      } else if p.mimeType == Html {
        if p.body.value.data.None? {
          return None;
        }
        bodyHtml := p.body.value.data.value;
      }
    }
    var hasAttachments := false;
    if p.parts.Some? {
      hasAttachments := ScanForAttachment(p.parts.value);
    }
    r := Some(EmailData(msg.id, msg.threadId, subject, sender.name, sender.email, msg.internalDate,
                        bodyText, bodyHtml, hasAttachments));
  }

  // ---------------------------------------------------------------------------
  // The fetch
  // ---------------------------------------------------------------------------

  /** The Gmail API as seen by a fetch: listing ids for a query, getting one message by id. */
  datatype Mailbox = Mailbox(list: (string, int) -> Option<seq<string>>, get: string -> Option<GmailMessage>)

  /** Decoding every listed message in order; None as soon as one get or decode raises. */
  function DecodeAll(ids: seq<string>, get: string -> Option<GmailMessage>): (r: Option<seq<EmailData>>)
    ensures r.Some? ==> (|r.value| == |ids| &&
      forall i :: 0 <= i < |ids| ==> get(ids[i]).Some? && Decode(get(ids[i]).value) == Some(r.value[i]))
    ensures r.None? ==> exists i :: 0 <= i < |ids| && (get(ids[i]).None? || Decode(get(ids[i]).value).None?)
  {
    if |ids| == 0 then Some([])
    else
      var init := ids[..|ids| - 1];
      var last := ids[|ids| - 1];
      assert forall i :: 0 <= i < |init| ==> init[i] == ids[i];
      match DecodeAll(init, get)
      case None => None
      case Some(es) =>
        match get(last)
        case None => None
        case Some(msg) =>
          match Decode(msg)
          case None => None
          case Some(e) =>
            assert forall i :: 0 <= i < |es| ==> (es + [e])[i] == es[i];
            Some(es + [e])
  }

  lemma {:induction false} DecodeAllFailsFromPrefix(ids: seq<string>, k: nat, get: string -> Option<GmailMessage>)
    requires k <= |ids| && DecodeAll(ids[..k], get).None?
    ensures DecodeAll(ids, get).None?
    decreases |ids| - k
  {
    if k < |ids| {
      assert ids[..k + 1][..k] == ids[..k];
      DecodeAllFailsFromPrefix(ids, k + 1, get);
    } else {
      assert ids[..k] == ids;
    }
  }

  /** The loop over the listed ids: get and decode each message, giving up on the first failure. */
  method FetchListed(ids: seq<string>, get: string -> Option<GmailMessage>) returns (r: Option<seq<EmailData>>)
    ensures r == DecodeAll(ids, get)
  {
    var emails := [];
    var i := 0;
    while i < |ids|
      invariant 0 <= i <= |ids|
      invariant DecodeAll(ids[..i], get) == Some(emails)
    {
      assert ids[..i + 1][..i] == ids[..i];
      var msg := get(ids[i]);
      if msg.None? {
        DecodeAllFailsFromPrefix(ids, i + 1, get);
        return None;
      }
      var data := DecodeMessage(msg.value);
      if data.None? {
        DecodeAllFailsFromPrefix(ids, i + 1, get);
        return None;
      }
      emails := emails + [data.value];
      i := i + 1;
    }
    assert ids[..i] == ids;
    r := Some(emails);
  }

  /** What `fetch_emails` returns: the records, or Raised when the token refresh raised. */
  datatype FetchOutcome = Fetched(emails: seq<EmailData>) | Raised

  function FetchOutcomeOf(svc: ServiceOutcome, maxResults: int, query: string, sinceDate: Option<CalendarDate>,
                          mailbox: Mailbox): FetchOutcome {
    match svc
    case RefreshRaised => Raised
    case NoService => Fetched([])
    case Service =>
      match mailbox.list(BuildQuery(query, sinceDate), maxResults)
      case None => Fetched([])
      case Some(ids) =>
        match DecodeAll(ids, mailbox.get)
        case None => Fetched([])
        case Some(es) => Fetched(es)
  }

  /** The fetch succeeded as a whole, which is when the last sync time is recorded. */
  predicate FetchSucceeded(svc: ServiceOutcome, maxResults: int, query: string, sinceDate: Option<CalendarDate>,
                           mailbox: Mailbox) {
    svc == Service &&
    var listing := mailbox.list(BuildQuery(query, sinceDate), maxResults);
    listing.Some? && DecodeAll(listing.value, mailbox.get).Some?
  }

  /**
   * `fetch_emails`: all or nothing. On success, one record per listed message in listing
   * order and the account's last sync set to now; on any failure no records and the last
   * sync left as it was.
   */
  method FetchEmails(account: GmailAccount, now: Time, refreshed: Option<Credentials>, buildOk: bool,
                     maxResults: int, query: string, sinceDate: Option<CalendarDate>, mailbox: Mailbox)
    returns (r: FetchOutcome)
    modifies account
    ensures var svc := ServiceFor(old(account.tokenExpiry), now, refreshed, buildOk);
      r == FetchOutcomeOf(svc, maxResults, query, sinceDate, mailbox) &&
      account.lastSync == (if FetchSucceeded(svc, maxResults, query, sinceDate, mailbox) then Some(now) else old(account.lastSync))
    ensures NeedsRefresh(old(account.tokenExpiry), now) && refreshed.Some? ==>
              account.accessToken == refreshed.value.token && account.tokenExpiry == refreshed.value.expiry
    ensures !(NeedsRefresh(old(account.tokenExpiry), now) && refreshed.Some?) ==>
              account.accessToken == old(account.accessToken) && account.tokenExpiry == old(account.tokenExpiry)
    ensures unchanged(account`id, account`email, account`refreshToken, account`status, account`userId)
  {
    var svc := GetGmailService(account, now, refreshed, buildOk);
    if svc == RefreshRaised {
      return Raised;
    }
    if svc == NoService {
      return Fetched([]);
    }
    var q := BuildQuery(query, sinceDate);
    var listing := mailbox.list(q, maxResults);
    if listing.None? {
      return Fetched([]);
    }
    var emails := FetchListed(listing.value, mailbox.get);
    if emails.None? {
      return Fetched([]);
    }
    account.lastSync := Some(now);
    r := Fetched(emails.value);
  }
}
