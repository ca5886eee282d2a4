/**
 * The SQL-backed account system: the `accounts` and `codes` tables it owns,
 * the statements it issues against them in the order it issues them, and
 * the linked/unlinked notifications it fires.
 */
module SqlAccounts {
  import opened Options
  import opened Uuids
  import opened Representation
  import opened Accounts
  import opened AccountProperties
  import opened LinkingCodes

  /** The statements the account system prepares. */
  datatype Statement = SelectAccount | UpdateAccount | InsertAccount | DeleteAccount | SelectCode | InsertCode

  /** What a call raises: an SQLException from a statement, or a uuid value that does not read back. */
  datatype Failure = StorageFailure(statement: Statement) | MalformedUuid

  datatype Result<T> = Ok(value: T) | Err(failure: Failure)
  datatype Outcome = Pass | Fail(failure: Failure)

  /** The notifications `callAccountLinkedEvent` and `callAccountUnlinkedEvent`, as (discord id, uuid). */
  datatype Event = Linked(discord: string, uuid: Uuid) | Unlinked(discord: string, uuid: Uuid)

  /** Every uuid value in the accounts table is one the codec writes. */
  ghost predicate RowsCanonical(t: seq<Row>, native: bool) {
    forall i :: 0 <= i < |t| ==> IsCanonical(native, t[i].uuid)
  }

  /** Every uuid value in the codes table is one the codec writes. */
  ghost predicate CodeRowsCanonical(rows: seq<CodeRow>, native: bool) {
    forall i :: 0 <= i < |rows| ==> IsCanonical(native, rows[i].uuid)
  }

  /** Over canonical rows, looking up the stored form of U finds a row exactly when some row reads back as U. */
  lemma FindDiscordByIdentifier(t: seq<Row>, native: bool, u: Uuid)
    requires RowsCanonical(t, native)
    ensures FindDiscord(t, Encode(native, u)).Some? <==> exists i :: 0 <= i < |t| && Decode(native, t[i].uuid) == Some(u)
  {
    forall i | 0 <= i < |t|
      ensures t[i].uuid == Encode(native, u) <==> Decode(native, t[i].uuid) == Some(u)
    {
      EncodeMatchesDecode(native, t[i].uuid, u);
    }
  }

  lemma LinkByUuidKeepsCanonical(t: seq<Row>, native: bool, key: Stored, discord: string)
    requires RowsCanonical(t, native) && IsCanonical(native, key)
    ensures RowsCanonical(LinkByUuid(t, key, discord), native)
  {
    LinkByUuidFrame(t, key, discord);
  }

  lemma LinkByDiscordKeepsCanonical(t: seq<Row>, native: bool, discord: string, key: Stored)
    requires RowsCanonical(t, native) && IsCanonical(native, key)
    ensures RowsCanonical(LinkByDiscord(t, discord, key), native)
  {
    LinkByDiscordFrame(t, discord, key);
  }

  lemma DeleteUuidKeepsCanonical(t: seq<Row>, native: bool, key: Stored)
    requires RowsCanonical(t, native)
    ensures RowsCanonical(DeleteUuid(t, key), native)
  {
    var r := DeleteUuid(t, key);
    DeleteUuidRemoves(t, key);
    forall i | 0 <= i < |r| ensures IsCanonical(native, r[i].uuid) {
      var j :| 0 <= j < |t| && t[j] == r[i];
    }
  }

  lemma DeleteDiscordKeepsCanonical(t: seq<Row>, native: bool, discord: string)
    requires RowsCanonical(t, native)
    ensures RowsCanonical(DeleteDiscord(t, discord), native)
  {
    var r := DeleteDiscord(t, discord);
    DeleteDiscordRemoves(t, discord);
    forall i | 0 <= i < |r| ensures IsCanonical(native, r[i].uuid) {
      var j :| 0 <= j < |t| && t[j] == r[i];
    }
  }

  /** Reads the uuid of a found row: null when none was found, an error when it does not decode. */
  function ReadUuid(native: bool, found: Option<Stored>): (r: Result<Option<Uuid>>)
    ensures found.None? ==> r == Ok(None)
    ensures found.Some? ==> (r.Ok? <==> Decode(native, found.value).Some?)
    ensures r.Ok? && found.Some? ==> r.value == Decode(native, found.value)
    ensures r.Err? ==> r.failure == MalformedUuid
  {
    match found
    case None => Ok(None)
    case Some(v) =>
      match Decode(native, v)
      case Some(u) => Ok(Some(u))
      case None => Err(MalformedUuid)
  }

  /** What a call does: its outcome, the accounts table afterwards and the notifications it fires, in order. */
  datatype Transition = Transition(outcome: Outcome, rows: seq<Row>, fired: seq<Event>)

  /** A call that raises: the table is as before and nothing fires. */
  function Failed(t: seq<Row>, f: Failure): Transition {
    Transition(Fail(f), t, [])
  }

  /**
   * `setLinkedDiscord(uuid, discordId)` over a table `t`. Both branches first
   * select by uuid (`isLinked`, or the previous discord id). With a discord id:
   * update if found, insert otherwise, then fire linked. With null: delete by
   * uuid, then fire unlinked with the previous discord id if there was one.
   */
  function SetLinkedDiscordSpec(native: bool, rejected: set<Statement>, t: seq<Row>, u: Uuid, discord: Option<string>): Transition {
    var key := Encode(native, u);
    var previous := FindDiscord(t, key);
    if SelectAccount in rejected then Failed(t, StorageFailure(SelectAccount))
    else
      match discord
      case Some(d) =>
        var write := if previous.Some? then UpdateAccount else InsertAccount;
        if write in rejected then Failed(t, StorageFailure(write))
        else Transition(Pass, LinkByUuid(t, key, d), [Linked(d, u)])
      case None =>
        if DeleteAccount in rejected then Failed(t, StorageFailure(DeleteAccount))
        else Transition(Pass, DeleteUuid(t, key), if previous.Some? then [Unlinked(previous.value, u)] else [])
  }

  /**
   * `setLinkedMinecraft(discordId, uuid)` over a table `t`, the mirror keyed by
   * the discord id. Both branches first read the uuid of the discord id, which
   * raises when it does not decode.
   */
  function SetLinkedMinecraftSpec(native: bool, rejected: set<Statement>, t: seq<Row>, discord: string, uuid: Option<Uuid>): Transition {
    var found := FindUuid(t, discord);
    if SelectAccount in rejected then Failed(t, StorageFailure(SelectAccount))
    else if found.Some? && Decode(native, found.value).None? then Failed(t, MalformedUuid)
    else
      match uuid
      case Some(u) =>
        var write := if found.Some? then UpdateAccount else InsertAccount;
        if write in rejected then Failed(t, StorageFailure(write))
        else Transition(Pass, LinkByDiscord(t, discord, Encode(native, u)), [Linked(discord, u)])
      case None =>
        if DeleteAccount in rejected then Failed(t, StorageFailure(DeleteAccount))
        else Transition(Pass, DeleteDiscord(t, discord), if found.Some? then [Unlinked(discord, Decode(native, found.value).value)] else [])
  }

  // ---------------------------------------------------------------------
  // What setLinkedDiscord guarantees

  /** After a call that returns, `getDiscordId(U)` is the discord id given (null for an unlink). */
  lemma SetLinkedDiscordSets(native: bool, rejected: set<Statement>, t: seq<Row>, u: Uuid, discord: Option<string>)
    ensures var step := SetLinkedDiscordSpec(native, rejected, t, u, discord);
      step.outcome.Pass? ==> FindDiscord(step.rows, Encode(native, u)) == discord
  {
    var key := Encode(native, u);
    var step := SetLinkedDiscordSpec(native, rejected, t, u, discord);
    if step.outcome.Pass? {
      if discord.Some? {
        assert step.rows == LinkByUuid(t, key, discord.value);
        LinkByUuidLinks(t, key, discord.value);
      } else {
        assert step.rows == DeleteUuid(t, key);
        DeleteUuidUnlinks(t, key);
      }
    }
  }

  /** Which notification fires: linked on every set that returns, even to the same discord id; unlinked exactly when a previous discord id was found; none on a raise. */
  lemma SetLinkedDiscordFires(native: bool, rejected: set<Statement>, t: seq<Row>, u: Uuid, discord: Option<string>)
    ensures var step := SetLinkedDiscordSpec(native, rejected, t, u, discord);
      && (step.outcome.Fail? ==> step.rows == t && step.fired == [])
      && (step.outcome.Pass? && discord.Some? ==> step.fired == [Linked(discord.value, u)])
      && (step.outcome.Pass? && discord.None? ==>
            forall e :: e in step.fired <==> exists previous :: FindDiscord(t, Encode(native, u)) == Some(previous) && e == Unlinked(previous, u))
      && |step.fired| <= 1
  {
    var step := SetLinkedDiscordSpec(native, rejected, t, u, discord);
    var previous := FindDiscord(t, Encode(native, u));
    if step.outcome.Pass? && discord.None? && previous.Some? {
      assert step.fired == [Unlinked(previous.value, u)];
    }
  }

  /** Lookups of every other uuid answer as before. */
  lemma SetLinkedDiscordKeepsOthers(native: bool, rejected: set<Statement>, t: seq<Row>, u: Uuid, discord: Option<string>, other: Uuid)
    requires other != u
    ensures FindDiscord(SetLinkedDiscordSpec(native, rejected, t, u, discord).rows, Encode(native, other)) == FindDiscord(t, Encode(native, other))
  {
    var key, otherKey := Encode(native, u), Encode(native, other);
    if key == otherKey {
      EncodeInjective(native, u, other);
    }
    var step := SetLinkedDiscordSpec(native, rejected, t, u, discord);
    if step.outcome.Pass? {
      if discord.Some? {
        assert step.rows == LinkByUuid(t, key, discord.value);
        LinkByUuidFrame(t, key, discord.value);
      } else {
        assert step.rows == DeleteUuid(t, key);
        DeleteUuidKeepsLookup(t, key, otherKey);
      }
    }
  }

  /** "At most one row per uuid" is kept by every call. */
  lemma SetLinkedDiscordKeepsAtMostOnePerUuid(native: bool, rejected: set<Statement>, t: seq<Row>, u: Uuid, discord: Option<string>)
    requires AtMostOnePerUuid(t)
    ensures AtMostOnePerUuid(SetLinkedDiscordSpec(native, rejected, t, u, discord).rows)
  {
    var key := Encode(native, u);
    var step := SetLinkedDiscordSpec(native, rejected, t, u, discord);
    if step.outcome.Pass? {
      if discord.Some? {
        assert step.rows == LinkByUuid(t, key, discord.value);
        LinkByUuidKeepsAtMostOnePerUuid(t, key, discord.value);
      } else {
        assert step.rows == DeleteUuid(t, key);
        DeleteUuidUnlinks(t, key);
      }
    }
  }

  /**
   * Calling twice with the same discord id leaves the rows of one call,
   * whatever the backend refuses: a refused statement keeps the table. After
   * a first call that returns, this holds even when the second call meets
   * other refusals (`rejected'`), as with a failure that comes and goes. The
   * second call always updates, so it returns and fires linked again only
   * when that update is accepted, even where the first call inserted.
   */
  lemma SetLinkedDiscordIdempotent(native: bool, rejected: set<Statement>, rejected': set<Statement>, t: seq<Row>, u: Uuid, discord: string)
    ensures var once := SetLinkedDiscordSpec(native, rejected, t, u, Some(discord));
      SetLinkedDiscordSpec(native, rejected, once.rows, u, Some(discord)).rows == once.rows
    ensures var once := SetLinkedDiscordSpec(native, rejected, t, u, Some(discord));
      once.outcome.Pass? ==> SetLinkedDiscordSpec(native, rejected', once.rows, u, Some(discord)).rows == once.rows
    ensures var once := SetLinkedDiscordSpec(native, rejected, t, u, Some(discord));
      var twice := SetLinkedDiscordSpec(native, rejected, once.rows, u, Some(discord));
      once.outcome.Pass? && UpdateAccount !in rejected ==> twice == once
  {
    var key := Encode(native, u);
    LinkByUuidLinks(t, key, discord);
    LinkByUuidIdempotent(t, key, discord);
  }

  /** The rows written hold only canonical uuid values. */
  lemma SetLinkedDiscordKeepsCanonical(native: bool, rejected: set<Statement>, t: seq<Row>, u: Uuid, discord: Option<string>)
    requires RowsCanonical(t, native)
    ensures RowsCanonical(SetLinkedDiscordSpec(native, rejected, t, u, discord).rows, native)
  {
    var key := Encode(native, u);
    var step := SetLinkedDiscordSpec(native, rejected, t, u, discord);
    if step.outcome.Pass? {
      DecodeOfEncode(native, u);
      if discord.Some? {
        assert step.rows == LinkByUuid(t, key, discord.value);
        LinkByUuidKeepsCanonical(t, native, key, discord.value);
      } else {
        assert step.rows == DeleteUuid(t, key);
        DeleteUuidKeepsCanonical(t, native, key);
      }
    }
  }

  // ---------------------------------------------------------------------
  // What setLinkedMinecraft guarantees

  /** After a call that returns, `getUuid(D)` reads back the uuid given (null for an unlink). */
  lemma SetLinkedMinecraftSets(native: bool, rejected: set<Statement>, t: seq<Row>, discord: string, uuid: Option<Uuid>)
    ensures var step := SetLinkedMinecraftSpec(native, rejected, t, discord, uuid);
      step.outcome.Pass? ==> ReadUuid(native, FindUuid(step.rows, discord)) == Ok(uuid)
  {
    var step := SetLinkedMinecraftSpec(native, rejected, t, discord, uuid);
    if step.outcome.Pass? {
      if uuid.Some? {
        var key := Encode(native, uuid.value);
        assert step.rows == LinkByDiscord(t, discord, key);
        LinkByDiscordLinks(t, discord, key);
        DecodeOfEncode(native, uuid.value);
      } else {
        assert step.rows == DeleteDiscord(t, discord);
        DeleteDiscordUnlinks(t, discord);
      }
    }
  }

  /** Which notification fires: linked on every set that returns; unlinked exactly when a previous uuid was read; none on a raise. */
  lemma SetLinkedMinecraftFires(native: bool, rejected: set<Statement>, t: seq<Row>, discord: string, uuid: Option<Uuid>)
    ensures var step := SetLinkedMinecraftSpec(native, rejected, t, discord, uuid);
      && (step.outcome.Fail? ==> step.rows == t && step.fired == [])
      && (step.outcome.Pass? && uuid.Some? ==> step.fired == [Linked(discord, uuid.value)])
      && (step.outcome.Pass? && uuid.None? ==>
            forall e :: e in step.fired <==> exists previous :: ReadUuid(native, FindUuid(t, discord)) == Ok(Some(previous)) && e == Unlinked(discord, previous))
      && |step.fired| <= 1
  {
    var step := SetLinkedMinecraftSpec(native, rejected, t, discord, uuid);
    var found := FindUuid(t, discord);
    if step.outcome.Pass? && uuid.None? && found.Some? {
      assert step.fired == [Unlinked(discord, Decode(native, found.value).value)];
    }
  }

  /** Lookups of every other discord id answer as before. */
  lemma SetLinkedMinecraftKeepsOthers(native: bool, rejected: set<Statement>, t: seq<Row>, discord: string, uuid: Option<Uuid>, other: string)
    requires other != discord
    ensures FindUuid(SetLinkedMinecraftSpec(native, rejected, t, discord, uuid).rows, other) == FindUuid(t, other)
  {
    var step := SetLinkedMinecraftSpec(native, rejected, t, discord, uuid);
    if step.outcome.Pass? {
      if uuid.Some? {
        var key := Encode(native, uuid.value);
        assert step.rows == LinkByDiscord(t, discord, key);
        LinkByDiscordFrame(t, discord, key);
      } else {
        assert step.rows == DeleteDiscord(t, discord);
        DeleteDiscordKeepsLookup(t, discord, other);
      }
    }
  }

  /** "At most one row per discord id" is kept by every call. */
  lemma SetLinkedMinecraftKeepsAtMostOnePerDiscord(native: bool, rejected: set<Statement>, t: seq<Row>, discord: string, uuid: Option<Uuid>)
    requires AtMostOnePerDiscord(t)
    ensures AtMostOnePerDiscord(SetLinkedMinecraftSpec(native, rejected, t, discord, uuid).rows)
  {
    var step := SetLinkedMinecraftSpec(native, rejected, t, discord, uuid);
    if step.outcome.Pass? {
      if uuid.Some? {
        var key := Encode(native, uuid.value);
        assert step.rows == LinkByDiscord(t, discord, key);
        LinkByDiscordKeepsAtMostOnePerDiscord(t, discord, key);
      } else {
        assert step.rows == DeleteDiscord(t, discord);
        DeleteDiscordUnlinks(t, discord);
      }
    }
  }

  /**
   * Calling twice with the same uuid leaves the rows of one call, whatever
   * the backend refuses, and after a first call that returns also under other
   * refusals `rejected'` of the second call. The second call returns and
   * fires linked again when the update it issues is accepted.
   */
  lemma SetLinkedMinecraftIdempotent(native: bool, rejected: set<Statement>, rejected': set<Statement>, t: seq<Row>, discord: string, u: Uuid)
    ensures var once := SetLinkedMinecraftSpec(native, rejected, t, discord, Some(u));
      SetLinkedMinecraftSpec(native, rejected, once.rows, discord, Some(u)).rows == once.rows
    ensures var once := SetLinkedMinecraftSpec(native, rejected, t, discord, Some(u));
      once.outcome.Pass? ==> SetLinkedMinecraftSpec(native, rejected', once.rows, discord, Some(u)).rows == once.rows
    ensures var once := SetLinkedMinecraftSpec(native, rejected, t, discord, Some(u));
      var twice := SetLinkedMinecraftSpec(native, rejected, once.rows, discord, Some(u));
      once.outcome.Pass? && UpdateAccount !in rejected ==> twice == once
  {
    var key := Encode(native, u);
    LinkByDiscordLinks(t, discord, key);
    LinkByDiscordIdempotent(t, discord, key);
    DecodeOfEncode(native, u);
  }

  /** Over canonical rows the read of the previous uuid always decodes, so the call never raises for a malformed value. */
  lemma SetLinkedMinecraftNeverMalformed(native: bool, rejected: set<Statement>, t: seq<Row>, discord: string, uuid: Option<Uuid>)
    requires RowsCanonical(t, native)
    ensures SetLinkedMinecraftSpec(native, rejected, t, discord, uuid).outcome != Fail(MalformedUuid)
  {
    var found := FindUuid(t, discord);
    if found.Some? {
      EncodeOfDecode(native, found.value);
    }
  }

  /** The rows written hold only canonical uuid values. */
  lemma SetLinkedMinecraftKeepsCanonical(native: bool, rejected: set<Statement>, t: seq<Row>, discord: string, uuid: Option<Uuid>)
    requires RowsCanonical(t, native)
    ensures RowsCanonical(SetLinkedMinecraftSpec(native, rejected, t, discord, uuid).rows, native)
  {
    var step := SetLinkedMinecraftSpec(native, rejected, t, discord, uuid);
    if step.outcome.Pass? {
      if uuid.Some? {
        var key := Encode(native, uuid.value);
        assert step.rows == LinkByDiscord(t, discord, key);
        DecodeOfEncode(native, uuid.value);
        LinkByDiscordKeepsCanonical(t, native, discord, key);
      } else {
        assert step.rows == DeleteDiscord(t, discord);
        DeleteDiscordKeepsCanonical(t, native, discord);
      }
    }
  }

  /** Over canonical rows every uuid value decodes, so `getLinkingCodes` never raises for a malformed value. */
  lemma CanonicalCodesCollect(rows: seq<CodeRow>, native: bool)
    requires CodeRowsCanonical(rows, native)
    ensures Collect(rows, native).Some?
  {
    CollectFails(rows, native);
    forall i | 0 <= i < |rows| ensures Decode(native, rows[i].uuid).Some? {
      EncodeOfDecode(native, rows[i].uuid);
    }
  }

  /** A stored code's row holds the value the codec writes, so the codes table stays canonical. */
  lemma StoreLinkingCodeKeepsCanonical(rows: seq<CodeRow>, native: bool, code: string, u: Uuid)
    requires CodeRowsCanonical(rows, native)
    ensures CodeRowsCanonical(rows + [CodeRow(code, Encode(native, u))], native)
  {
    DecodeOfEncode(native, u);
    var rows' := rows + [CodeRow(code, Encode(native, u))];
    assert forall i :: 0 <= i < |rows| ==> rows'[i] == rows[i];
  }

  /** Over canonical accounts rows `getDiscordId(U)` finds a row exactly when some row reads back as U. */
  lemma GetDiscordIdReadsBack(s: SqlAccountSystem, u: Uuid)
    requires RowsCanonical(s.accounts, s.native) && SelectAccount !in s.rejected
    ensures s.GetDiscordId(u).Ok?
    ensures s.GetDiscordId(u).value.Some? <==> exists i :: 0 <= i < |s.accounts| && Decode(s.native, s.accounts[i].uuid) == Some(u)
  {
    FindDiscordByIdentifier(s.accounts, s.native, u);
  }

  /** Over canonical accounts rows `getUuid(D)` never raises for a malformed value: it is null or the identifier of the first row with D. */
  lemma GetUuidReadsBack(s: SqlAccountSystem, discord: string)
    requires RowsCanonical(s.accounts, s.native) && SelectAccount !in s.rejected
    ensures s.GetUuid(discord).Ok?
    ensures s.GetUuid(discord).value.None? <==> forall i :: 0 <= i < |s.accounts| ==> s.accounts[i].discord != discord
    ensures s.GetUuid(discord).value.Some? ==>
      exists i :: && 0 <= i < |s.accounts| && s.accounts[i].discord == discord
                  && Decode(s.native, s.accounts[i].uuid) == s.GetUuid(discord).value
                  && forall j :: 0 <= j < i ==> s.accounts[j].discord != discord
  {
    var found := FindUuid(s.accounts, discord);
    if found.Some? {
      EncodeOfDecode(s.native, found.value);
    }
  }

  class SqlAccountSystem {
    /** `canStoreNativeUuids()`: whether uuid columns hold the identifier itself or its text form. */
    const native: bool
    /** The statements the backend answers with an SQLException (all of them when no connection is available). */
    const rejected: set<Statement>
    /** Whether the driver runs a statement with an unset placeholder, comparing it as NULL, instead of raising. */
    const unsetParameterIsNull: bool

    var accounts: seq<Row>
    var codes: seq<CodeRow>
    /** The notifications fired so far, oldest first. */
    ghost var events: seq<Event>

    constructor (native: bool, rejected: set<Statement>, unsetParameterIsNull: bool, accounts: seq<Row>, codes: seq<CodeRow>)
      ensures this.native == native && this.rejected == rejected && this.unsetParameterIsNull == unsetParameterIsNull
      ensures this.accounts == accounts && this.codes == codes && events == []
    {
      this.native := native;
      this.rejected := rejected;
      this.unsetParameterIsNull := unsetParameterIsNull;
      this.accounts := accounts;
      this.codes := codes;
      events := [];
    }

    /** Both tables hold only values the codec writes, as they do when this class wrote every row. */
    ghost predicate WellFormed()
      reads this
    {
      RowsCanonical(accounts, native) && CodeRowsCanonical(codes, native)
    }

    /** `getDiscordId(uuid)`: the discord id of the first row holding the stored form of the uuid, or null. */
    function GetDiscordId(u: Uuid): (r: Result<Option<string>>)
      reads this
      ensures r.Err? <==> SelectAccount in rejected
      ensures r.Err? ==> r.failure == StorageFailure(SelectAccount)
      ensures r.Ok? ==> r.value == FindDiscord(accounts, Encode(native, u))
    {
      if SelectAccount in rejected then Err(StorageFailure(SelectAccount))
      else Ok(FindDiscord(accounts, Encode(native, u)))
    }

    /** `getUuid(discordId)`: the identifier read from the first row holding the discord id, or null. */
    function GetUuid(discord: string): (r: Result<Option<Uuid>>)
      reads this
      ensures SelectAccount in rejected ==> r == Err(StorageFailure(SelectAccount))
      ensures SelectAccount !in rejected ==> r == ReadUuid(native, FindUuid(accounts, discord))
    {
      if SelectAccount in rejected then Err(StorageFailure(SelectAccount))
      else ReadUuid(native, FindUuid(accounts, discord))
    }

    /**
     * `isLinked(uuid)`. It is defined outside this class, in a part that is not
     * part of this model; it is taken to be `getDiscordId(uuid) != null`.
     */
    function IsLinkedUuid(u: Uuid): (r: Result<bool>)
      reads this
      ensures r.Err? <==> GetDiscordId(u).Err?
      ensures r.Ok? ==> r.value == GetDiscordId(u).value.Some?
      ensures r.Err? <==> SelectAccount in rejected
      ensures r.Ok? ==> (r.value <==> exists i :: 0 <= i < |accounts| && accounts[i].uuid == Encode(native, u))
    {
      match GetDiscordId(u)
      case Ok(found) => Ok(found.Some?)
      case Err(f) => Err(f)
    }

    /**
     * `isLinked(discordId)`. It is defined outside this class, in a part that
     * is not part of this model; it is taken to be `getUuid(discordId) != null`.
     */
    function IsLinkedDiscord(discord: string): (r: Result<bool>)
      reads this
      ensures r.Err? <==> GetUuid(discord).Err?
      ensures r.Ok? ==> r.value == GetUuid(discord).value.Some?
      ensures r.Err? <==> SelectAccount in rejected || (FindUuid(accounts, discord).Some? && Decode(native, FindUuid(accounts, discord).value).None?)
      ensures r.Ok? ==> (r.value <==> exists i :: 0 <= i < |accounts| && accounts[i].discord == discord)
    {
      match GetUuid(discord)
      case Ok(found) => Ok(found.Some?)
      case Err(f) => Err(f)
    }

    /** Runs one statement: it raises when the backend rejects it. */
    method Execute(s: Statement) returns (r: Outcome)
      ensures r.Fail? <==> s in rejected
      ensures r.Fail? ==> r.failure == StorageFailure(s)
    {
      r := if s in rejected then Fail(StorageFailure(s)) else Pass;
    }

    /**
     * `setLinkedDiscord(uuid, discordId)`. With a discord id: update the uuid's
     * rows if it is linked, insert a row otherwise, then fire linked. With null:
     * look up the previous discord id, delete the uuid's rows, then fire
     * unlinked if there was one.
     */
    method SetLinkedDiscord(u: Uuid, discord: Option<string>) returns (r: Outcome)
      modifies this
      ensures var step := SetLinkedDiscordSpec(native, rejected, old(accounts), u, discord);
        r == step.outcome && accounts == step.rows && events == old(events) + step.fired
      ensures codes == old(codes)
      ensures old(WellFormed()) ==> WellFormed()
      ensures AtMostOnePerUuid(old(accounts)) ==> AtMostOnePerUuid(accounts)
    {
      ghost var before := accounts;
      var key := Encode(native, u);
      if discord.Some? {
        var linked := IsLinkedUuid(u);
        if linked.Err? {
          r := Fail(linked.failure);
        } else {
          r := Execute(if linked.value then UpdateAccount else InsertAccount);
          if r.Pass? {
            if linked.value {
              accounts := SetDiscordWhere(accounts, key, discord.value);
            } else {
              accounts := accounts + [Row(key, discord.value)];
            }
            events := events + [Linked(discord.value, u)];
          }
        }
      } else {
        var previous := GetDiscordId(u);
        if previous.Err? {
          r := Fail(previous.failure);
        } else {
          r := Execute(DeleteAccount);
          if r.Pass? {
            accounts := DeleteUuid(accounts, key);
            if previous.value.Some? {
              events := events + [Unlinked(previous.value.value, u)];
            }
          }
        }
      }
      ghost var step := SetLinkedDiscordSpec(native, rejected, before, u, discord);
      assert accounts == step.rows;
      if RowsCanonical(before, native) {
        SetLinkedDiscordKeepsCanonical(native, rejected, before, u, discord);
      }
      if AtMostOnePerUuid(before) {
        SetLinkedDiscordKeepsAtMostOnePerUuid(native, rejected, before, u, discord);
      }
    }

    /**
     * `setLinkedMinecraft(discordId, uuid)`, the mirror keyed by the discord id.
     * With a uuid: update the discord id's rows if it is linked, insert a row
     * otherwise, then fire linked. With null: read the previous uuid, delete
     * the discord id's rows, then fire unlinked if there was one.
     */
    method SetLinkedMinecraft(discord: string, uuid: Option<Uuid>) returns (r: Outcome)
      modifies this
      ensures var step := SetLinkedMinecraftSpec(native, rejected, old(accounts), discord, uuid);
        r == step.outcome && accounts == step.rows && events == old(events) + step.fired
      ensures codes == old(codes)
      ensures old(WellFormed()) ==> WellFormed()
      ensures AtMostOnePerDiscord(old(accounts)) ==> AtMostOnePerDiscord(accounts)
    {
      ghost var before := accounts;
      if uuid.Some? {
        var key := Encode(native, uuid.value);
        var linked := IsLinkedDiscord(discord);
        if linked.Err? {
          r := Fail(linked.failure);
        } else {
          r := Execute(if linked.value then UpdateAccount else InsertAccount);
          if r.Pass? {
            if linked.value {
              accounts := SetUuidWhere(accounts, discord, key);
            } else {
              accounts := accounts + [Row(key, discord)];
            }
            events := events + [Linked(discord, uuid.value)];
          }
        }
      } else {
        var previous := GetUuid(discord);
        if previous.Err? {
          r := Fail(previous.failure);
        } else {
          r := Execute(DeleteAccount);
          if r.Pass? {
            accounts := DeleteDiscord(accounts, discord);
            if previous.value.Some? {
              events := events + [Unlinked(discord, previous.value.value)];
            }
          }
        }
      }
      ghost var step := SetLinkedMinecraftSpec(native, rejected, before, discord, uuid);
      assert accounts == step.rows;
      if RowsCanonical(before, native) {
        SetLinkedMinecraftKeepsCanonical(native, rejected, before, discord, uuid);
      }
      if AtMostOnePerDiscord(before) {
        SetLinkedMinecraftKeepsAtMostOnePerDiscord(native, rejected, before, discord, uuid);
      }
    }

    /**
     * `lookupCode(code)` as written: the placeholder of its query is never
     * bound. A strict driver raises; a driver that compares the unset value as
     * NULL selects no row. Either way no code is ever found.
     */
    function LookupCode(code: string): (r: Result<Option<Uuid>>)
      reads this
      ensures r.Ok? ==> r.value.None?
      ensures r.Err? <==> SelectCode in rejected || !unsetParameterIsNull
    {
      if SelectCode in rejected || !unsetParameterIsNull then Err(StorageFailure(SelectCode))
      else ReadUuid(native, FindCode(codes, Unset))
    }

    /** `lookupCode(code)` with the code bound to the placeholder: the identifier of the first row carrying the code. */
    function LookupBoundCode(code: string): (r: Result<Option<Uuid>>)
      reads this
      ensures SelectCode in rejected ==> r == Err(StorageFailure(SelectCode))
      ensures r.Ok? && r.value.None? ==> code !in Codes(codes)
      ensures r.Ok? && r.value.Some? ==>
        exists i :: && 0 <= i < |codes| && codes[i].code == code && Decode(native, codes[i].uuid) == r.value
                    && forall j :: 0 <= j < i ==> codes[j].code != code
      ensures WellFormed() && SelectCode !in rejected ==> r.Ok?
    {
      if SelectCode in rejected then Err(StorageFailure(SelectCode))
      else
        var found := FindCode(codes, Bound(code));
        assert WellFormed() && found.Some? ==> Decode(native, found.value).Some? by {
          if WellFormed() && found.Some? { EncodeOfDecode(native, found.value); }
        }
        ReadUuid(native, found)
    }

    /** `getLinkingCodes()`: every row put into a map in order, so the last row of a code wins. */
    method GetLinkingCodes() returns (r: Result<map<string, Uuid>>)
      ensures SelectCode in rejected ==> r == Err(StorageFailure(SelectCode))
      ensures SelectCode !in rejected ==>
        r == match Collect(codes, native)
             case Some(m) => Ok(m)
             case None => Err(MalformedUuid)
    {
      var ok := Execute(SelectCode);
      if ok.Fail? {
        r := Err(ok.failure);
      } else {
        var m: map<string, Uuid> := map[];
        var malformed := false;
        var i := 0;
        while i < |codes| && !malformed
          invariant 0 <= i <= |codes|
          decreases |codes| - i, !malformed
          invariant !malformed ==> Collect(codes[..i], native) == Some(m)
          invariant malformed ==> Collect(codes, native).None?
        {
          var u := Decode(native, codes[i].uuid);
          if u.None? {
            CollectFails(codes, native);
            malformed := true;
          } else {
            CollectStep(codes, native, i, m, u.value);
            m := m[codes[i].code := u.value];
            i := i + 1;
          }
        }
        if malformed {
          r := Err(MalformedUuid);
        } else {
          assert codes[..i] == codes;
          r := Ok(m);
        }
      }
    }

    /** `storeLinkingCode(code, uuid)`: one more row, whatever codes the table already holds. */
    method StoreLinkingCode(code: string, u: Uuid) returns (r: Outcome)
      modifies this
      ensures accounts == old(accounts) && events == old(events)
      ensures InsertCode in rejected ==> r == Fail(StorageFailure(InsertCode)) && codes == old(codes)
      ensures InsertCode !in rejected ==> r == Pass && codes == old(codes) + [CodeRow(code, Encode(native, u))]
      ensures old(WellFormed()) ==> WellFormed()
    {
      if CodeRowsCanonical(codes, native) {
        StoreLinkingCodeKeepsCanonical(codes, native, code, u);
      }
      r := Execute(InsertCode);
      if r.Pass? {
        codes := codes + [CodeRow(code, Encode(native, u))];
      }
    }
  }
}
