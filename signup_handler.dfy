/** `onRequestPost`: the fixed chain of gates (JSON body, e-mail address,
    database binding) followed by the hash, the table creation and the
    insert, each outcome mapped to one JSON response. JSON parsing, SHA-256,
    the clock and the proxy header arrive as parameters. */
module SignupHandler {
  import opened Wrappers
  import opened JsStrings
  import opened Email
  import opened Hex
  import opened Http
  import opened WaitlistTable

  /** What `payload.email` holds: absent, a string, or any other JSON value. */
  datatype EmailField = Missing | Text(value: string) | NotText

  /** The outcome of `request.json()`: a parse failure, the JSON literal
      `null`, or any other JSON value (an object, or a scalar or array,
      whose `email` property is then missing). */
  datatype Payload = Malformed | JsonNull | JsonValue(email: EmailField)

  const InvalidJson: string := "Invalid JSON payload."
  const InvalidEmail: string := "A valid email address is required."
  const NotConfigured: string := "WAITLIST_DB binding is not configured."
  const AlreadyRegistered: string := "Already registered."
  const UnableToSave: string := "Unable to save right now."

  /** The only error texts a client ever sees. */
  predicate IsPublicMessage(text: string) {
    text in {InvalidJson, InvalidEmail, NotConfigured, AlreadyRegistered, UnableToSave}
  }

  /** The normalised address of an `email` property: a string is trimmed and
      lower-cased, anything else becomes the empty string. */
  function FieldEmail(f: EmailField): (email: string)
    ensures !f.Text? ==> !MatchesEmailPattern(email)
    ensures email == [] || (!IsJsSpace(email[0]) && !IsJsSpace(email[|email| - 1]))
    ensures forall i | 0 <= i < |email| :: !IsAsciiUpper(email[i])
  {
    if f.Text? then Normalize(f.value) else ""
  }

  /** The address read from a parsed body as the handler is written: reading
      `.email` of `null` throws a TypeError outside every `try` (`None`). */
  function PayloadEmailAsWritten(p: Payload): (email: Option<string>)
    requires !p.Malformed?
    ensures email.None? <==> p.JsonNull?
  {
    match p
    case JsonNull => None
    case JsonValue(f) => Some(FieldEmail(f))
  }

  /** The address read from a parsed body, with a `null` body read like a
      body without an `email` property. */
  function PayloadEmail(p: Payload): (email: string)
    requires !p.Malformed?
    ensures PayloadEmailAsWritten(p).Some? ==> email == PayloadEmailAsWritten(p).value
    ensures p.JsonNull? ==> email == ""
  {
    if p.JsonValue? then FieldEmail(p.email) else ""
  }

  /** A body without a string `email` property never gets past the address
      gate. */
  lemma NonStringEmailRejected(p: Payload)
    requires !p.Malformed? && !(p.JsonValue? && p.email.Text?)
    ensures !MatchesEmailPattern(PayloadEmail(p))
  {
    EmptyIsRejected();
  }

  /** The result of the gates before any hashing or storage access. */
  datatype Gate = Reject(response: Response) | Proceed(email: string)

  /** The gates of `onRequestPost` as written: `None` when the handler throws instead of
      answering. */
  function ScreenAsWritten(p: Payload, bindingPresent: bool): (g: Option<Gate>)
    ensures g.None? <==> p.JsonNull?
  {
    if p.Malformed? then Some(Reject(JsonResponse(400, ErrorMessage(InvalidJson))))
    else match PayloadEmailAsWritten(p)
      case None => None
      case Some(email) =>
        if !MatchesEmailPattern(email) then Some(Reject(JsonResponse(400, ErrorMessage(InvalidEmail))))
        else if !bindingPresent then Some(Reject(JsonResponse(500, ErrorMessage(NotConfigured))))
        else Some(Proceed(email))
  }

  /** A request whose body is the JSON text `null` gets no JSON response at
      all from the handler as written, whether or not the database is bound. */
  lemma NullBodyIsUncaught(bindingPresent: bool)
    ensures ScreenAsWritten(JsonNull, bindingPresent) == None
  {
  }

  /** The gates of `onRequestPost`, with a `null` body answered like a body without an
      address: the JSON gate first, then the address gate, then the binding
      gate; a request that passes all three carries a well-formed,
      normalised address. */
  function Screen(p: Payload, bindingPresent: bool): (g: Gate)
    ensures p.Malformed? ==> g == Reject(JsonResponse(400, ErrorMessage(InvalidJson)))
    ensures !p.Malformed? && !MatchesEmailPattern(PayloadEmail(p)) ==>
      g == Reject(JsonResponse(400, ErrorMessage(InvalidEmail)))
    ensures !p.Malformed? && MatchesEmailPattern(PayloadEmail(p)) && !bindingPresent ==>
      g == Reject(JsonResponse(500, ErrorMessage(NotConfigured)))
    ensures g.Proceed? <==> !p.Malformed? && MatchesEmailPattern(PayloadEmail(p)) && bindingPresent
    ensures g.Proceed? ==> g.email == PayloadEmail(p) && WellFormedAddress(g.email)
    ensures g.Reject? ==> g.response.status in {400, 500} && IsJsonCors(g.response)
    ensures p != JsonNull ==> ScreenAsWritten(p, bindingPresent) == Some(g)
  {
    if p.Malformed? then Reject(JsonResponse(400, ErrorMessage(InvalidJson)))
    else
      var email := PayloadEmail(p);
      PatternIsWellFormedAddress(email);
      if !MatchesEmailPattern(email) then Reject(JsonResponse(400, ErrorMessage(InvalidEmail)))
      else if !bindingPresent then Reject(JsonResponse(500, ErrorMessage(NotConfigured)))
      else Proceed(email)
  }

  /** `sha256(email)`: the hex encoding of the digest, 64 lower-case hex
      digits. UTF-8 encoding and SHA-256 itself are the `sha256` parameter. */
  function EmailHash(email: string, sha256: string -> Digest): (hash: string)
    ensures |hash| == 64
    ensures forall i | 0 <= i < |hash| :: IsLowerHexDigit(hash[i])
  {
    HexEncode(sha256(email))
  }

  /** Two addresses get the same stored hash exactly when their digests are
      equal: the hex step adds no collisions. */
  lemma HashIdentifiesDigest(a: string, b: string, sha256: string -> Digest)
    ensures EmailHash(a, sha256) == EmailHash(b, sha256) <==> sha256(a) == sha256(b)
  {
    if EmailHash(a, sha256) == EmailHash(b, sha256) {
      EncodeInjective(sha256(a), sha256(b));
    }
  }

  /** `request.headers.get("CF-Connecting-IP") || null`: an absent or empty
      header is stored as `null`. */
  function SourceIp(header: Option<string>): (ip: Option<string>)
    ensures ip.Some? <==> header.Some? && header.value != ""
    ensures ip.Some? ==> ip == header
  {
    match header
    case Some(value) => if value == "" then None else Some(value)
    case None => None
  }

  /** The `catch` block: 409 exactly when the lower-cased error text contains
      `unique`, 500 otherwise, and the error text itself never reaches the
      client. */
  function StorageFailure(errorText: string): (r: Response)
    ensures r.status == 409 <==> Contains(ToLower(errorText), "unique")
    ensures r.status in {409, 500} && IsJsonCors(r)
    ensures r.body == ErrorMessage(if r.status == 409 then AlreadyRegistered else UnableToSave)
  {
    if Contains(ToLower(errorText), "unique") then JsonResponse(409, ErrorMessage(AlreadyRegistered))
    else JsonResponse(500, ErrorMessage(UnableToSave))
  }

  /** The store's uniqueness error is classified as a duplicate. */
  lemma UniqueViolationIsDuplicate()
    ensures StorageFailure(UniqueViolation) == JsonResponse(409, ErrorMessage(AlreadyRegistered))
  {
    var lower := ToLower(UniqueViolation);
    assert UniqueViolation[10..16] == "UNIQUE";
    LowerSlice(UniqueViolation, 10, 16);
    assert ToLower("UNIQUE") == "unique";
    assert OccursAt(lower, "unique", 10);
  }

  /** `onRequestPost`. `db` is `env.WAITLIST_DB` (`null` when unbound), `p`
      the outcome of `request.json()`, `now` the ISO timestamp, `ipHeader`
      the `CF-Connecting-IP` header, `createFault` and `insertFault` storage
      failures other than the uniqueness constraint. */
  method OnRequestPost(db: Database?, p: Payload, sha256: string -> Digest, now: string,
                       ipHeader: Option<string>, createFault: Option<string>, insertFault: Option<string>)
    returns (r: Response)
    requires db != null ==> db.Valid()
    modifies db
    ensures db != null ==> db.Valid()
    ensures r.status in {200, 400, 409, 500} && IsJsonCors(r)
    ensures r.body == OkTrue || (r.body.ErrorMessage? && IsPublicMessage(r.body.text))
    ensures Screen(p, db != null).Reject? ==>
      r == Screen(p, db != null).response && (db != null ==> unchanged(db))
    ensures Screen(p, db != null).Proceed? ==>
      var email := Screen(p, db != null).email;
      var hash := EmailHash(email, sha256);
      var row := Row(old(db.nextId), email, hash, now, SourceIp(ipHeader));
      && (r.status == 200 <==> createFault.None? && insertFault.None? && !HasHash(old(db.rows), hash))
      && (r.status == 200 ==> r == JsonResponse(200, OkTrue) && db.rows == old(db.rows) + [row])
      && (r.status != 200 ==> db.rows == old(db.rows))
      && (createFault.None? && insertFault.None? && HasHash(old(db.rows), hash) ==>
            r == JsonResponse(409, ErrorMessage(AlreadyRegistered)))
      && (createFault.Some? ==> r == StorageFailure(createFault.value))
      && (createFault.None? && insertFault.Some? ==> r == StorageFailure(insertFault.value))
      && db.nextId == old(db.nextId) + (if r.status == 200 then 1 else 0)
      && (createFault.None? ==> db.tableExists)
      && (createFault.Some? ==> db.tableExists == old(db.tableExists))
  {
    var gate := Screen(p, db != null);
    if gate.Reject? {
      return gate.response;
    }
    var email := gate.email;
    var emailHash := EmailHash(email, sha256);
    var sourceIp := SourceIp(ipHeader);
    var err := db.CreateTableIfNotExists(createFault);
    if err.None? {
      err := db.Insert(email, emailHash, now, sourceIp, insertFault);
    }
    if err.None? {
      r := JsonResponse(200, OkTrue);
    } else {
      if createFault.None? && insertFault.None? {
        UniqueViolationIsDuplicate();
      }
      r := StorageFailure(err.value);
    }
  }

  /** The same address sent twice, differing only in case and surrounding
      whitespace: the first request is stored, the second is refused as
      already registered and stores nothing. */
  method SubmitTwice(db: Database, sha256: string -> Digest, first: string, second: string,
                     now1: string, now2: string, ipHeader: Option<string>)
    returns (r1: Response, r2: Response)
    requires db.Valid()
    requires MatchesEmailPattern(Normalize(first)) && Normalize(first) == Normalize(second)
    requires !HasHash(db.rows, EmailHash(Normalize(first), sha256))
    modifies db
    ensures r1 == JsonResponse(200, OkTrue)
    ensures r2 == JsonResponse(409, ErrorMessage(AlreadyRegistered))
    ensures db.rows == old(db.rows) +
      [Row(old(db.nextId), Normalize(first), EmailHash(Normalize(first), sha256), now1, SourceIp(ipHeader))]
    ensures db.nextId == old(db.nextId) + 1 && db.tableExists
  {
    var p1, p2 := JsonValue(Text(first)), JsonValue(Text(second));
    ghost var email := Normalize(first);
    ghost var hash := EmailHash(email, sha256);
    assert Screen(p1, true) == Proceed(email);
    r1 := OnRequestPost(db, p1, sha256, now1, ipHeader, None, None);
    assert HasHash(db.rows, hash) by {
      assert db.rows[|db.rows| - 1].emailHash == hash;
    }
    assert Screen(p2, true) == Proceed(email);
    r2 := OnRequestPost(db, p2, sha256, now2, ipHeader, None, None);
  }

  lemma ExampleCaseFolds()
    ensures ToLower("User@Example.com") == ToLower("user@example.com") == "user@example.com"
  {
  }

  lemma ExampleIsNormal()
    ensures Normalize("user@example.com") == "user@example.com"
  {
    var u := "user@example.com";
    assert !IsJsSpace(u[0]) && !IsJsSpace(u[|u| - 1]);
    assert u[0..|u|] == u;
    TrimUnique(u, 0, u);
    ExampleCaseFolds();
  }

  lemma ExampleMatches()
    ensures MatchesEmailPattern("user@example.com")
  {
    var u := "user@example.com";
    assert u[4] == '@' && u[12] == '.';
    assert forall k | 0 <= k < |u| && k != 4 :: IsAddressChar(u[k]);
  }

  /** The example pair: ` User@Example.com ` and `user@example.com` are the
      same well-formed address after normalisation. */
  lemma ExampleAddressesCoincide()
    ensures Normalize(" User@Example.com ") == Normalize("user@example.com") == "user@example.com"
    ensures MatchesEmailPattern(Normalize("user@example.com"))
  {
    ExampleCaseFolds();
    assert " User@Example.com " == " " + "User@Example.com" + " ";
    NormalizeIgnoresCaseAndSurroundingSpace(" ", "User@Example.com", " ", "user@example.com");
    ExampleIsNormal();
    ExampleMatches();
  }
}
