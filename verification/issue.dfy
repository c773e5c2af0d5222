/**
 * The interactive path (`generate_certificate`): validate the typed-in
 * roll, find it in the roster, check the entry, derive the verification
 * code and append a record to the store. The clock readings and the digest
 * are parameters; page rendering is not modelled.
 */
module Issue {
  import opened Results
  import opened Text
  import opened CertHash
  import opened Roster
  import opened Store

  /** Why no certificate was issued. */
  datatype IssueError =
    | BlankRoll       // "Please enter a roll number"
    | RosterNotFound  // "info.json not found"
    | InvalidRoll     // "Invalid roll number"
    | NameNotText     // `.strip()` on a non-string name raises: an HTTP 500 error page instead of the form, no record

  /** The inline error shown on the form, or `None` when the request fails with an exception. */
  function ErrorMessage(e: IssueError): (m: Option<string>)
    ensures m.None? <==> e == NameNotText
  {
    match e
    case BlankRoll => Some("Please enter a roll number")
    case RosterNotFound => Some("info.json not found")
    case InvalidRoll => Some("Invalid roll number")
    case NameNotText => None
  }

  /**
   * The entry check of the interactive path: a truthy name and a digit
   * position. The name is checked BEFORE stripping.
   */
  predicate Acceptable(e: Entry) {
    e.name.Truthy() && ValidPosition(e.position)
  }

  /** What a valid roster entry contributes to a certificate. */
  datatype Candidate = Candidate(displayName: string, position: nat)

  /**
   * The roster entry the lookup for the stripped form field lands on, if
   * any: the first entry of the roster whose roll is that string, found
   * exactly when the roster has one.
   */
  function Found(formRoll: string, roster: Option<seq<Entry>>): (e: Option<Entry>)
    ensures e.Some? ==> roster.Some? && e.value in roster.value && e.value.roll == Str(Strip(formRoll))
    ensures e.Some? ==> exists i ::
      && 0 <= i < |roster.value|
      && roster.value[i] == e.value
      && forall j :: 0 <= j < i ==> roster.value[j].roll != Str(Strip(formRoll))
    ensures e.None? <==>
      roster.None? || forall j :: 0 <= j < |roster.value| ==> roster.value[j].roll != Str(Strip(formRoll))
  {
    if roster.None? then None
    else
      match Lookup(roster.value, Strip(formRoll))
      case None => None
      case Some(i) => Some(roster.value[i])
  }

  /** The validation part of `generate_certificate`: strip and check the roll, read the roster, find and check the entry. */
  function Validate(formRoll: string, roster: Option<seq<Entry>>): (r: Result<Candidate, IssueError>)
    ensures r == Err(BlankRoll) <==> AllSpace(formRoll)
    ensures r == Err(RosterNotFound) <==> !AllSpace(formRoll) && roster.None?
    ensures r == Err(InvalidRoll) <==>
      !AllSpace(formRoll) && roster.Some? && (Found(formRoll, roster).None? || !Acceptable(Found(formRoll, roster).value))
    ensures r == Err(NameNotText) <==>
      !AllSpace(formRoll) && Found(formRoll, roster).Some? && Acceptable(Found(formRoll, roster).value)
      && Found(formRoll, roster).value.name.Int?
    ensures r.Ok? <==>
      !AllSpace(formRoll) && Found(formRoll, roster).Some? && Acceptable(Found(formRoll, roster).value)
      && Found(formRoll, roster).value.name.Str?
    ensures r.Ok? ==>
      var e := Found(formRoll, roster).value;
      r.value.displayName == Strip(e.name.s) && r.value.position == ParseNat(e.position.Text())
  {
    var roll := Strip(formRoll);
    StripEmptyIffBlank(formRoll);
    if roll == [] then Err(BlankRoll)
    else if roster.None? then Err(RosterNotFound)
    else
      match Lookup(roster.value, roll)
      case None => Err(InvalidRoll)
      case Some(i) =>
        var e := roster.value[i];
        if !Acceptable(e) then Err(InvalidRoll)
        else if !e.name.Str? then Err(NameNotText)
        else Ok(Candidate(Strip(e.name.s), PositionValue(e.position)))
  }

  /** The record for a candidate issued at `timestamp` (`generated_at` is a second clock reading). */
  function MakeRecord(c: Candidate, timestamp: string, generatedAt: string, digest: Digest): (rec: Record)
    ensures rec.displayName == c.displayName && rec.position == c.position
    ensures rec.timestamp == timestamp && rec.generatedAt == generatedAt
    ensures rec.hash == CertificateHash(digest, rec.displayName, rec.position, rec.timestamp)
  {
    Record(c.displayName, c.position, CertificateHash(digest, c.displayName, c.position, timestamp), timestamp, generatedAt)
  }

  /** A stored record carries the code recomputed from its own fields. */
  predicate SelfVerifying(rec: Record, digest: Digest) {
    rec.hash == CertificateHash(digest, rec.displayName, rec.position, rec.timestamp)
  }

  /** The outcome of one request and the store file after it. */
  datatype Response = Response(outcome: Result<Record, IssueError>, store: StoreFile)

  /** `generate_certificate` for the form field `formRoll` (an absent field reads as ""). */
  function Generate(
    formRoll: string, roster: Option<seq<Entry>>, store: StoreFile,
    timestamp: string, generatedAt: string, digest: Digest): (r: Response)
    ensures Validate(formRoll, roster).Err? ==>
      r.outcome == Err(Validate(formRoll, roster).error) && r.store == store
    ensures Validate(formRoll, roster).Ok? ==>
      var c := Validate(formRoll, roster).value;
      && r.outcome.Ok?
      && r.outcome.value.displayName == c.displayName
      && r.outcome.value.position == c.position
      && r.outcome.value.timestamp == timestamp
      && SelfVerifying(r.outcome.value, digest)
      && IsVerificationCode(r.outcome.value.hash)
      && Load(r.store) == Load(store) + [r.outcome.value]
  {
    match Validate(formRoll, roster)
    case Err(e) => Response(Err(e), store)
    case Ok(c) =>
      var rec := MakeRecord(c, timestamp, generatedAt, digest);
      Response(Ok(rec), Save(store, rec))
  }

  /** A blank roll is refused before the roster is consulted, whatever the roster holds. */
  lemma BlankRollIgnoresRoster(
    formRoll: string, r1: Option<seq<Entry>>, r2: Option<seq<Entry>>, store: StoreFile,
    timestamp: string, generatedAt: string, digest: Digest)
    requires AllSpace(formRoll)
    ensures Generate(formRoll, r1, store, timestamp, generatedAt, digest)
         == Generate(formRoll, r2, store, timestamp, generatedAt, digest)
         == Response(Err(BlankRoll), store)
  {
  }

  /** A roll that is in no entry is refused and the store is left as it was. */
  lemma UnknownRollLeavesStore(
    formRoll: string, roster: seq<Entry>, store: StoreFile,
    timestamp: string, generatedAt: string, digest: Digest)
    requires forall j :: 0 <= j < |roster| ==> roster[j].roll != Str(Strip(formRoll))
    requires !AllSpace(formRoll)
    ensures Generate(formRoll, Some(roster), store, timestamp, generatedAt, digest)
         == Response(Err(InvalidRoll), store)
  {
  }

  /**
   * Issuing the same roll twice gives two records with the same name and
   * rank, stamped with their own times; the store grows by exactly two.
   */
  lemma ReissueAppendsTwo(
    formRoll: string, roster: Option<seq<Entry>>, store: StoreFile,
    t1: string, g1: string, t2: string, g2: string, digest: Digest)
    requires Validate(formRoll, roster).Ok?
    ensures
      var first := Generate(formRoll, roster, store, t1, g1, digest);
      var second := Generate(formRoll, roster, first.store, t2, g2, digest);
      && first.outcome.Ok? && second.outcome.Ok?
      && Load(second.store) == Load(store) + [first.outcome.value, second.outcome.value]
      && |Load(second.store)| == |Load(store)| + 2
      && first.outcome.value.displayName == second.outcome.value.displayName
      && first.outcome.value.position == second.outcome.value.position
      && (t1 != t2 ==> first.outcome.value != second.outcome.value)
  {
  }

  /**
   * A whitespace-only name passes the interactive check (it is checked before
   * stripping) and yields a certificate with an empty display name.
   */
  lemma BlankNameIssuedEmpty(roll: string, name: string, store: StoreFile, timestamp: string, generatedAt: string, digest: Digest)
    requires !AllSpace(roll) && roll == Strip(roll)
    requires name != [] && AllSpace(name)
    ensures
      var r := Generate(roll, Some([Entry(Str(roll), Str(name), Str("1"))]), store, timestamp, generatedAt, digest);
      r.outcome.Ok? && r.outcome.value.displayName == [] && r.outcome.value.position == 1
  {
    StripEmptyIffBlank(name);
  }

  /** An entry at the head of the roster whose roll matches is the one found. */
  lemma FoundFirst(formRoll: string, roster: seq<Entry>)
    requires |roster| > 0 && roster[0].roll == Str(Strip(formRoll))
    ensures Found(formRoll, Some(roster)) == Some(roster[0])
  {
    assert Lookup(roster, Strip(formRoll)) == Some(0);
  }

  /** The roster of the worked example: roll "101", "Alice Example", position "1". */
  function AliceRoster(): seq<Entry> {
    [Entry(Str("101"), Str("Alice Example"), Str("1"))]
  }

  /** A checked entry at the head of the roster that matches the typed-in roll is issued. */
  lemma ValidateHead(formRoll: string, roster: seq<Entry>)
    requires !AllSpace(formRoll) && |roster| > 0 && roster[0].roll == Str(Strip(formRoll))
    requires Acceptable(roster[0]) && roster[0].name.Str?
    ensures Validate(formRoll, Some(roster)) == Ok(Candidate(Strip(roster[0].name.s), PositionValue(roster[0].position)))
  {
    FoundFirst(formRoll, roster);
  }

  lemma AliceValidates()
    ensures Validate("101", Some(AliceRoster())) == Ok(Candidate("Alice Example", 1))
  {
    var roll, name := "101", "Alice Example";
    assert ValidPosition(Str("1")) && PositionValue(Str("1")) == 1 by {
      assert "1"[0] == '1';
      assert ParseNat("1") == 1;
    }
    assert !IsSpace(roll[0]) && !IsSpace(roll[2]);
    StripKeeps(roll);
    assert !IsSpace(name[0]) && !IsSpace(name[12]);
    StripKeeps(name);
    ValidateHead(roll, AliceRoster());
  }

  /** The canonical message of the worked example. */
  lemma AliceMessage()
    ensures Message("Alice Example", 1, "2025-01-01T00:00:00") == "Alice Example" + ":1:" + "2025-01-01T00:00:00"
  {
    assert NatToString(1) == "1";
    assert [Separator] + "1" + [Separator] == ":1:";
  }

  /**
   * The worked example: issuing "101" at "2025-01-01T00:00:00" stores a
   * record for "Alice Example", rank 1, whose code is `x` followed by the
   * digest of "Alice Example:1:2025-01-01T00:00:00".
   */
  lemma AliceExample(store: StoreFile, generatedAt: string, digest: Digest)
    ensures
      var r := Generate("101", Some(AliceRoster()), store, "2025-01-01T00:00:00", generatedAt, digest);
      && r.outcome == Ok(Record("Alice Example", 1, "x" + digest("Alice Example" + ":1:" + "2025-01-01T00:00:00"),
                                "2025-01-01T00:00:00", generatedAt))
      && Load(r.store) == Load(store) + [r.outcome.value]
  {
    var ts := "2025-01-01T00:00:00";
    var c := Candidate("Alice Example", 1);
    AliceValidates();
    AliceMessage();
    var rec := MakeRecord(c, ts, generatedAt, digest);
    assert rec.hash == "x" + digest("Alice Example" + ":1:" + "2025-01-01T00:00:00");
    assert Generate("101", Some(AliceRoster()), store, ts, generatedAt, digest) == Response(Ok(rec), Save(store, rec));
  }

}
