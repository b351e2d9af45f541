/**
 * The API route that creates a secret: `POST /api/messages/create` with a
 * JSON body `{ message, mode, ttl }`. It validates the body, encrypts the
 * message, inserts one row into the `messages` table and answers with the
 * link under which the secret can be read.
 *
 * The clock (`Date.now()`), the fresh identifier (`randomUUID()`), the
 * encryption under the master key, the outcome of the database call and the
 * `NEXT_PUBLIC_HOST` setting are parameters.
 */
module CreateHandler {
  import opened Wrappers
  import opened JsValues
  import opened MessagesTable

  const DefaultPublicHost: string := "http://localhost:3000"
  const LinkPath: string := "/message/"

  const InvalidMessageText: string := "Invalid message"
  const InvalidModeText: string := "Invalid destroy mode"
  const InvalidTtlText: string := "Invalid TTL"
  const InsertFailedText: string := "Database insert failed"

  /** An incoming request: its HTTP method `verb` (absent when unknown) and its parsed body. */
  datatype Request = Request(verb: Option<string>, body: Value)

  /** The JSON written with the status: none, `{ error }` or `{ link }`. */
  datatype Payload = NoBody | ErrorBody(error: string) | LinkBody(link: string)

  datatype JsError = TypeError | RangeError

  /**
   * What the handler does with the response: sends a status and payload, or
   * throws before sending anything (the framework then answers on its own).
   */
  datatype Reply = Sent(status: int, payload: Payload) | Threw(error: JsError)

  // ---------------------------------------------------------------- link

  /** `process.env.NEXT_PUBLIC_HOST || "http://localhost:3000"`. */
  function PublicHost(env: Option<string>): (host: string)
    ensures host != ""
    ensures env.Some? && env.value != "" ==> host == env.value
    ensures env.None? || env.value == "" ==> host == DefaultPublicHost
  {
    match env
    case Some(h) => if h != "" then h else DefaultPublicHost
    case None => DefaultPublicHost
  }

  /** The link handed back to the sender. */
  function MessageLink(host: string, id: string): (link: string)
    ensures |link| == |host| + |LinkPath| + |id|
    ensures link[..|host|] == host && link[|host|..|host| + |LinkPath|] == LinkPath
    ensures link[|host| + |LinkPath|..] == id
  {
    host + LinkPath + id
  }

  /** The id a link addresses: what follows `host + "/message/"`, if the link starts so. */
  function LinkedId(host: string, link: string): Option<string> {
    var prefix := host + LinkPath;
    if |prefix| <= |link| && link[..|prefix|] == prefix then Some(link[|prefix|..]) else None
  }

  /** The link of an id addresses that same id. */
  lemma LinkRoundTrip(host: string, id: string)
    ensures LinkedId(host, MessageLink(host, id)) == Some(id)
  {
    var prefix := host + LinkPath;
    assert MessageLink(host, id) == prefix + id;
  }

  /** Under one host, distinct ids get distinct links. */
  lemma LinkInjective(host: string, id1: string, id2: string)
    requires MessageLink(host, id1) == MessageLink(host, id2)
    ensures id1 == id2
  {
    LinkRoundTrip(host, id1);
    LinkRoundTrip(host, id2);
  }

  // ---------------------------------------------------------- validation

  /** The three fields read by `const { message, mode, ttl } = req.body`. */
  datatype Fields = Fields(message: Value, mode: Value, ttl: Value)

  /** Destructures a body; None when it is undefined or null (a TypeError). */
  function FieldsOf(body: Value): (r: Option<Fields>)
    ensures r.None? <==> !ObjectCoercible(body)
    ensures ObjectCoercible(body) && !body.Obj? ==> r == Some(Fields(Undefined, Undefined, Undefined))
    ensures body.Obj? ==>
      && r.value.message == (if "message" in body.fields then body.fields["message"] else Undefined)
      && r.value.mode == (if "mode" in body.fields then body.fields["mode"] else Undefined)
      && r.value.ttl == (if "ttl" in body.fields then body.fields["ttl"] else Undefined)
  {
    if ObjectCoercible(body) then
      Some(Fields(Property(body, "message").value, Property(body, "mode").value, Property(body, "ttl").value))
    else None
  }

  datatype Rejection = InvalidMessage | InvalidMode | InvalidTtl

  function ErrorText(e: Rejection): string {
    match e
    case InvalidMessage => InvalidMessageText
    case InvalidMode => InvalidModeText
    case InvalidTtl => InvalidTtlText
  }

  /** How the secret is to be destroyed: after one view, or `ttlSeconds` after creation. */
  datatype Policy = OnView | OnTime(ttlSeconds: int)

  function ModeOf(p: Policy): DestroyMode {
    if p.OnView? then View else Time
  }

  /** A body that passed validation: the message to encrypt and its policy. */
  datatype Accepted = Accepted(message: string, policy: Policy)

  /** A message is accepted when it is a non-empty string; blanks are not trimmed. */
  predicate ValidMessage(v: Value) {
    v.Str? && v.s != ""
  }

  /** A mode is accepted when it is exactly one of the two strings. */
  predicate ValidMode(v: Value) {
    v == Str("view") || v == Str("time")
  }

  /** A TTL is accepted when it is a non-zero number, negative ones included. */
  predicate ValidTtl(v: Value) {
    v.Num? && v.n != 0
  }

  /**
   * The checks of the handler in their order: the message, then the mode,
   * then, in "time" mode only, the TTL. Each failure has its own rejection.
   */
  function Validate(f: Fields): (r: Result<Accepted, Rejection>)
    ensures !ValidMessage(f.message) ==> r == Failure(InvalidMessage)
    ensures ValidMessage(f.message) && !ValidMode(f.mode) ==> r == Failure(InvalidMode)
    ensures ValidMessage(f.message) && f.mode == Str("time") && !ValidTtl(f.ttl) ==> r == Failure(InvalidTtl)
    ensures r.Success? <==> ValidMessage(f.message) && ValidMode(f.mode) && (f.mode == Str("time") ==> ValidTtl(f.ttl))
    ensures r.Success? ==> r.value.message == f.message.s
    ensures r.Success? && f.mode == Str("view") ==> r.value.policy == OnView
    ensures r.Success? && f.mode == Str("time") ==> r.value.policy == OnTime(f.ttl.n)
  {
    if !Truthy(f.message) || TypeOf(f.message) != "string" then
      Failure(InvalidMessage)
    else if f.mode != Str("view") && f.mode != Str("time") then
      Failure(InvalidMode)
    else if f.mode == Str("time") && (!Truthy(f.ttl) || TypeOf(f.ttl) != "number") then
      Failure(InvalidTtl)
    else
      Success(Accepted(f.message.s, if f.mode == Str("view") then OnView else OnTime(f.ttl.n)))
  }

  // ------------------------------------------------------------- handler

  /** The reply of one call and the rows of the table after it. */
  datatype Step = Step(reply: Reply, rows: map<string, Record>)

  /** The reply that reports a created secret under `id`. */
  function Created(host: string, id: string): Reply {
    Sent(200, LinkBody(MessageLink(host, id)))
  }

  /**
   * What one call of the handler does, given the table's rows before it:
   * the reference the imperative handler below is proved against.
   */
  function Outcome(req: Request, host: string, now: int, id: string, encrypt: string -> Ciphered,
                   rows: map<string, Record>, backendFails: bool): (s: Step)
    // anything but POST is refused before the body is looked at
    ensures req.verb != Some("POST") ==> s == Step(Sent(405, NoBody), rows)
    // destructuring an undefined or null body throws
    ensures req.verb == Some("POST") && !ObjectCoercible(req.body) ==> s == Step(Threw(TypeError), rows)
    // only a success changes the table
    ensures s.reply != Created(host, id) ==> s.rows == rows
  {
    if req.verb != Some("POST") then Step(Sent(405, NoBody), rows)
    else match FieldsOf(req.body)
      case None => Step(Threw(TypeError), rows)
      case Some(f) =>
        match Validate(f)
        case Failure(e) => Step(Sent(400, ErrorBody(ErrorText(e))), rows)
        case Success(a) =>
          var expiresAt := if a.policy.OnTime? then Some(now + a.policy.ttlSeconds * 1000) else None;
          if expiresAt.Some? && !InTimeRange(expiresAt.value) then Step(Threw(RangeError), rows)
          else
            var c := encrypt(a.message);
            var r := Record(id, c.ciphertext, c.iv, c.tag, ModeOf(a.policy), expiresAt);
            match TryInsert(rows, r, backendFails)
            case None => Step(Sent(500, ErrorBody(InsertFailedText)), rows)
            case Some(rows') =>
              LinkRoundTrip(host, id);
              Step(Created(host, id), rows')
  }

  /** A POST body that destructures: its three fields. */
  predicate Posted(req: Request, f: Fields) {
    req.verb == Some("POST") && FieldsOf(req.body) == Some(f)
  }

  /** The checks run in order, each with its own error text, and none touches the table. */
  lemma RejectionOrder(req: Request, f: Fields, host: string, now: int, id: string,
                       encrypt: string -> Ciphered, rows: map<string, Record>, backendFails: bool)
    requires Posted(req, f)
    ensures var s := Outcome(req, host, now, id, encrypt, rows, backendFails);
      && (!ValidMessage(f.message) ==> s == Step(Sent(400, ErrorBody(InvalidMessageText)), rows))
      && (ValidMessage(f.message) && !ValidMode(f.mode) ==> s == Step(Sent(400, ErrorBody(InvalidModeText)), rows))
      && (ValidMessage(f.message) && f.mode == Str("time") && !ValidTtl(f.ttl) ==>
            s == Step(Sent(400, ErrorBody(InvalidTtlText)), rows))
  {
  }

  /** An accepted "time" body whose deadline is no valid Date throws before anything is stored. */
  lemma DeadlineOutOfRange(req: Request, f: Fields, host: string, now: int, id: string,
                           encrypt: string -> Ciphered, rows: map<string, Record>, backendFails: bool)
    requires Posted(req, f) && ValidMessage(f.message) && f.mode == Str("time") && ValidTtl(f.ttl)
    requires !InTimeRange(now + f.ttl.n * 1000)
    ensures Outcome(req, host, now, id, encrypt, rows, backendFails) == Step(Threw(RangeError), rows)
  {
  }

  /** An accepted body whose insert reports an error answers 500 and leaves the table as it was. */
  lemma InsertFailure(req: Request, f: Fields, host: string, now: int, id: string,
                      encrypt: string -> Ciphered, rows: map<string, Record>, backendFails: bool)
    requires Posted(req, f) && Validate(f).Success?
    requires f.mode == Str("time") ==> InTimeRange(now + f.ttl.n * 1000)
    ensures var s := Outcome(req, host, now, id, encrypt, rows, backendFails);
      (backendFails || id in rows) <==> s == Step(Sent(500, ErrorBody(InsertFailedText)), rows)
    ensures var s := Outcome(req, host, now, id, encrypt, rows, backendFails);
      !(backendFails || id in rows) <==> s.reply == Created(host, id)
  {
  }

  /**
   * An accepted body whose insert succeeds adds exactly one row, under `id`:
   * the encrypted message, the mode, and an expiry only in "time" mode,
   * `ttl` seconds after `now`. Every other row stays as it was.
   */
  lemma AcceptedStoresRecord(req: Request, f: Fields, host: string, now: int, id: string,
                             encrypt: string -> Ciphered, rows: map<string, Record>, backendFails: bool)
    requires Posted(req, f) && Validate(f).Success?
    requires f.mode == Str("time") ==> InTimeRange(now + f.ttl.n * 1000)
    requires !backendFails && id !in rows
    ensures var s := Outcome(req, host, now, id, encrypt, rows, backendFails);
      && s.reply == Created(host, id)
      && s.rows.Keys == rows.Keys + {id} && |s.rows| == |rows| + 1
      && (forall k :: k in rows ==> s.rows[k] == rows[k])
      && var c := encrypt(f.message.s);
         && s.rows[id] == Record(id, c.ciphertext, c.iv, c.tag, s.rows[id].destroyMode, s.rows[id].expiresAt)
         && (f.mode == Str("view") ==> s.rows[id].destroyMode == View && s.rows[id].expiresAt == None)
         && (f.mode == Str("time") ==> s.rows[id].destroyMode == Time && s.rows[id].expiresAt == Some(now + f.ttl.n * 1000))
  {
  }

  /** A 200 is answered only to a POST whose body passed every check and whose insert succeeded. */
  lemma SuccessOnlyWhenAccepted(req: Request, host: string, now: int, id: string,
                                encrypt: string -> Ciphered, rows: map<string, Record>, backendFails: bool)
    requires Outcome(req, host, now, id, encrypt, rows, backendFails).reply.Sent?
    requires Outcome(req, host, now, id, encrypt, rows, backendFails).reply.status == 200
    ensures req.verb == Some("POST") && ObjectCoercible(req.body)
    ensures var f := FieldsOf(req.body).value;
      && Validate(f).Success?
      && (f.mode == Str("time") ==> InTimeRange(now + f.ttl.n * 1000))
      && !backendFails && id !in rows
  {
    var f := FieldsOf(req.body).value;
    RejectionOrder(req, f, host, now, id, encrypt, rows, backendFails);
    if f.mode == Str("time") && Validate(f).Success? && !InTimeRange(now + f.ttl.n * 1000) {
      DeadlineOutOfRange(req, f, host, now, id, encrypt, rows, backendFails);
    }
    if Validate(f).Success? && (f.mode == Str("time") ==> InTimeRange(now + f.ttl.n * 1000)) {
      InsertFailure(req, f, host, now, id, encrypt, rows, backendFails);
    }
  }

  /** A call keeps every row under its own id and well-formed. */
  lemma OutcomeKeepsConsistent(req: Request, host: string, now: int, id: string,
                               encrypt: string -> Ciphered, rows: map<string, Record>, backendFails: bool)
    requires Consistent(rows)
    ensures Consistent(Outcome(req, host, now, id, encrypt, rows, backendFails).rows)
  {
  }

  /** The id the link of a success addresses (LinkRoundTrip) is in the table. */
  lemma LinkAddressesRow(req: Request, host: string, now: int, id: string,
                         encrypt: string -> Ciphered, rows: map<string, Record>, backendFails: bool)
    requires Outcome(req, host, now, id, encrypt, rows, backendFails).reply == Created(host, id)
    ensures id in Outcome(req, host, now, id, encrypt, rows, backendFails).rows
  {
  }

  /**
   * The request handler. It returns at the first failed check, computes
   * `expiresAt` only in "time" mode, inserts one row and answers with its
   * link under the host that `hostSetting` (`NEXT_PUBLIC_HOST`) selects.
   */
  method Handle(table: Table, hostSetting: Option<string>, req: Request, now: int, id: string,
                encrypt: string -> Ciphered, backendFails: bool) returns (reply: Reply)
    modifies table
    ensures Step(reply, table.rows) == Outcome(req, PublicHost(hostSetting), now, id, encrypt, old(table.rows), backendFails)
  {
    var host := PublicHost(hostSetting);
    if req.verb != Some("POST") {
      return Sent(405, NoBody);
    }
    if !ObjectCoercible(req.body) {
      return Threw(TypeError);
    }
    var fields := FieldsOf(req.body).value;
    var checked := Validate(fields);
    if checked.Failure? {
      return Sent(400, ErrorBody(ErrorText(checked.error)));
    }
    var accepted := checked.value;

    var expiresAt: Option<int> := None;
    if accepted.policy.OnTime? {
      var deadline := now + accepted.policy.ttlSeconds * 1000;
      if !InTimeRange(deadline) {
        return Threw(RangeError);
      }
      expiresAt := Some(deadline);
    }

    var c := encrypt(accepted.message);
    var ok := table.Insert(Record(id, c.ciphertext, c.iv, c.tag, ModeOf(accepted.policy), expiresAt), backendFails);
    if !ok {
      return Sent(500, ErrorBody(InsertFailedText));
    }
    reply := Created(host, id);
  }

  /**
   * A "time" secret with a negative TTL passes validation and is stored
   * with a deadline already in the past.
   */
  lemma NegativeTtlAccepted(req: Request, f: Fields, host: string, now: int, id: string,
                            encrypt: string -> Ciphered, rows: map<string, Record>, backendFails: bool)
    requires Posted(req, f) && ValidMessage(f.message) && f.mode == Str("time") && f.ttl.Num? && f.ttl.n < 0
    requires InTimeRange(now + f.ttl.n * 1000) && !backendFails && id !in rows
    ensures var s := Outcome(req, host, now, id, encrypt, rows, backendFails);
      s.reply == Created(host, id) && s.rows[id].expiresAt.Some? && s.rows[id].expiresAt.value < now
  {
    AcceptedStoresRecord(req, f, host, now, id, encrypt, rows, backendFails);
  }

  // --------------------------------------------------- successive requests

  /** A reply that reports a created secret. */
  predicate Succeeded(r: Reply) {
    r.Sent? && r.status == 200
  }

  /** What one call does to the table: a success adds one new row and keeps the others, anything else changes nothing. */
  lemma StepEffect(req: Request, host: string, now: int, id: string,
                   encrypt: string -> Ciphered, rows: map<string, Record>, backendFails: bool)
    ensures var s := Outcome(req, host, now, id, encrypt, rows, backendFails);
      if Succeeded(s.reply) then
        && s.reply == Created(host, id) && id !in rows
        && s.rows.Keys == rows.Keys + {id} && |s.rows| == |rows| + 1
        && (forall k :: k in rows ==> s.rows[k] == rows[k])
      else
        s.rows == rows
  {
    var s := Outcome(req, host, now, id, encrypt, rows, backendFails);
    if Succeeded(s.reply) {
      SuccessOnlyWhenAccepted(req, host, now, id, encrypt, rows, backendFails);
      AcceptedStoresRecord(req, FieldsOf(req.body).value, host, now, id, encrypt, rows, backendFails);
    }
  }

  /** One invocation of the handler, with the inputs it draws from its environment,
      among them its own encryption, which draws a fresh random IV. */
  datatype Call = Call(req: Request, now: int, id: string, encrypt: string -> Ciphered, backendFails: bool)

  /** The replies to a series of calls and the rows of the table after them. */
  datatype Trace = Trace(replies: seq<Reply>, rows: map<string, Record>)

  /** The handler run on each call in turn, starting from a table holding `rows`. */
  function Serve(host: string, rows: map<string, Record>, calls: seq<Call>): (t: Trace)
    ensures |t.replies| == |calls|
    decreases |calls|
  {
    if calls == [] then Trace([], rows)
    else
      var c := calls[0];
      var s := Outcome(c.req, host, c.now, c.id, c.encrypt, rows, c.backendFails);
      var rest := Serve(host, s.rows, calls[1..]);
      Trace([s.reply] + rest.replies, rest.rows)
  }

  /** The number of successes among `replies`. */
  function SuccessCount(replies: seq<Reply>): nat {
    if replies == [] then 0
    else (if Succeeded(replies[0]) then 1 else 0) + SuccessCount(replies[1..])
  }

  /** Rows are write-once: no call overwrites or removes a row that was there. */
  lemma {:induction false} ServeWriteOnce(host: string,
                                          rows: map<string, Record>, calls: seq<Call>)
    ensures var t := Serve(host, rows, calls);
      forall k :: k in rows ==> k in t.rows && t.rows[k] == rows[k]
    decreases |calls|
  {
    if calls != [] {
      var c := calls[0];
      StepEffect(c.req, host, c.now, c.id, c.encrypt, rows, c.backendFails);
      ServeWriteOnce(host, Outcome(c.req, host, c.now, c.id, c.encrypt, rows, c.backendFails).rows, calls[1..]);
    }
  }

  /** Every row stays under its own id and well-formed, whatever the calls. */
  lemma {:induction false} ServeKeepsConsistent(host: string,
                                                rows: map<string, Record>, calls: seq<Call>)
    requires Consistent(rows)
    ensures Consistent(Serve(host, rows, calls).rows)
    decreases |calls|
  {
    if calls != [] {
      var c := calls[0];
      OutcomeKeepsConsistent(c.req, host, c.now, c.id, c.encrypt, rows, c.backendFails);
      ServeKeepsConsistent(host, Outcome(c.req, host, c.now, c.id, c.encrypt, rows, c.backendFails).rows, calls[1..]);
    }
  }

  /** The table grows by exactly one row per success. */
  lemma {:induction false} ServeGrowth(host: string,
                                       rows: map<string, Record>, calls: seq<Call>)
    ensures var t := Serve(host, rows, calls);
      |t.rows| == |rows| + SuccessCount(t.replies)
    decreases |calls|
  {
    if calls != [] {
      var c := calls[0];
      var t := Serve(host, rows, calls);
      var s := Outcome(c.req, host, c.now, c.id, c.encrypt, rows, c.backendFails);
      StepEffect(c.req, host, c.now, c.id, c.encrypt, rows, c.backendFails);
      ServeGrowth(host, s.rows, calls[1..]);
      assert t.replies[1..] == Serve(host, s.rows, calls[1..]).replies;
    }
  }

  /**
   * Each success answers with the link of its own id, an id that was not in
   * the table before the calls and is in it after them.
   */
  lemma {:induction false} ServeLinksResolve(host: string,
                                             rows: map<string, Record>, calls: seq<Call>, i: nat)
    requires i < |calls|
    requires Succeeded(Serve(host, rows, calls).replies[i])
    ensures var t := Serve(host, rows, calls);
      t.replies[i] == Created(host, calls[i].id) && calls[i].id !in rows && calls[i].id in t.rows
    decreases |calls|
  {
    var c := calls[0];
    var s := Outcome(c.req, host, c.now, c.id, c.encrypt, rows, c.backendFails);
    StepEffect(c.req, host, c.now, c.id, c.encrypt, rows, c.backendFails);
    ServeWriteOnce(host, s.rows, calls[1..]);
    if i > 0 {
      ServeLinksResolve(host, s.rows, calls[1..], i - 1);
    }
  }

  /** No two successes share an id, so no two links handed out are alike. */
  lemma {:induction false} ServeDistinctLinks(host: string,
                                              rows: map<string, Record>, calls: seq<Call>, i: nat, j: nat)
    requires i < j < |calls|
    requires Succeeded(Serve(host, rows, calls).replies[i])
    requires Succeeded(Serve(host, rows, calls).replies[j])
    ensures calls[i].id != calls[j].id
    ensures Serve(host, rows, calls).replies[i] != Serve(host, rows, calls).replies[j]
    decreases |calls|
  {
    var c := calls[0];
    var s := Outcome(c.req, host, c.now, c.id, c.encrypt, rows, c.backendFails);
    var t := Serve(host, rows, calls);
    var rest := Serve(host, s.rows, calls[1..]);
    assert t.replies[j] == rest.replies[j - 1] && calls[j] == calls[1..][j - 1];
    if i == 0 {
      StepEffect(c.req, host, c.now, c.id, c.encrypt, rows, c.backendFails);
      ServeLinksResolve(host, s.rows, calls[1..], j - 1);
    } else {
      assert t.replies[i] == rest.replies[i - 1] && calls[i] == calls[1..][i - 1];
      ServeDistinctLinks(host, s.rows, calls[1..], i - 1, j - 1);
    }
    ServeLinksResolve(host, rows, calls, i);
    ServeLinksResolve(host, rows, calls, j);
  }
}
