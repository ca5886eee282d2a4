/**
 * The `accounts(uuid, discord)` table as a sequence of rows in the order the
 * backend returns them, and the effect of each statement that the account
 * system issues against it. A query returns the first row that matches.
 */
module Accounts {
  import opened Options
  import opened Representation

  datatype Row = Row(uuid: Stored, discord: string)

  // ---------------------------------------------------------------------
  // Queries

  /** `select discord from accounts where uuid = ?`, reading the first row; None when no row matches. */
  function FindDiscord(t: seq<Row>, key: Stored): (r: Option<string>)
    ensures r.None? <==> forall i :: 0 <= i < |t| ==> t[i].uuid != key
    ensures r.Some? ==> exists i :: && 0 <= i < |t| && t[i].uuid == key && t[i].discord == r.value
                                    && forall j :: 0 <= j < i ==> t[j].uuid != key
  {
    if t == [] then None
    else if t[0].uuid == key then Some(t[0].discord)
    else FindDiscord(t[1..], key)
  }

  /** `select uuid from accounts where discord = ?`, reading the first row; None when no row matches. */
  function FindUuid(t: seq<Row>, discord: string): (r: Option<Stored>)
    ensures r.None? <==> forall i :: 0 <= i < |t| ==> t[i].discord != discord
    ensures r.Some? ==> exists i :: && 0 <= i < |t| && t[i].discord == discord && t[i].uuid == r.value
                                    && forall j :: 0 <= j < i ==> t[j].discord != discord
  {
    if t == [] then None
    else if t[0].discord == discord then Some(t[0].uuid)
    else FindUuid(t[1..], discord)
  }

  /** How many rows hold this uuid. */
  function CountUuid(t: seq<Row>, key: Stored): (n: nat)
    ensures n == 0 <==> forall i :: 0 <= i < |t| ==> t[i].uuid != key
    ensures n <= |t|
  {
    if t == [] then 0 else (if t[0].uuid == key then 1 else 0) + CountUuid(t[1..], key)
  }

  /** How many rows hold this discord id. */
  function CountDiscord(t: seq<Row>, discord: string): (n: nat)
    ensures n == 0 <==> forall i :: 0 <= i < |t| ==> t[i].discord != discord
    ensures n <= |t|
  {
    if t == [] then 0 else (if t[0].discord == discord then 1 else 0) + CountDiscord(t[1..], discord)
  }

  /** The invariant that a uuid-keyed update-or-insert keeps: no uuid is on two rows. */
  ghost predicate AtMostOnePerUuid(t: seq<Row>) {
    forall key :: CountUuid(t, key) <= 1
  }

  /** The invariant that a discord-keyed update-or-insert keeps: no discord id is on two rows. */
  ghost predicate AtMostOnePerDiscord(t: seq<Row>) {
    forall discord :: CountDiscord(t, discord) <= 1
  }

  // ---------------------------------------------------------------------
  // Statements

  /** `update accounts set discord = ? where uuid = ?`: every row with the uuid gets the new discord id. */
  function SetDiscordWhere(t: seq<Row>, key: Stored, discord: string): seq<Row> {
    seq(|t|, i requires 0 <= i < |t| => if t[i].uuid == key then Row(key, discord) else t[i])
  }

  /** `update accounts set uuid = ? where discord = ?`: every row with the discord id gets the new uuid. */
  function SetUuidWhere(t: seq<Row>, discord: string, key: Stored): seq<Row> {
    seq(|t|, i requires 0 <= i < |t| => if t[i].discord == discord then Row(key, discord) else t[i])
  }

  /** `delete from accounts where uuid = ?`: drops exactly the rows with the uuid and keeps the rest in order (`DeleteUuidConcat`). */
  function DeleteUuid(t: seq<Row>, key: Stored): seq<Row> {
    if t == [] then []
    else
      (if t[0].uuid == key then [] else [t[0]]) + DeleteUuid(t[1..], key)
  }

  /** `delete from accounts where discord = ?`: drops exactly the rows with the discord id and keeps the rest in order (`DeleteDiscordConcat`). */
  function DeleteDiscord(t: seq<Row>, discord: string): seq<Row> {
    if t == [] then []
    else
      (if t[0].discord == discord then [] else [t[0]]) + DeleteDiscord(t[1..], discord)
  }

  // ---------------------------------------------------------------------
  // The two update-or-insert state changes

  /** The table after `setLinkedDiscord(U, D)` with non-null D: update when U is linked, insert otherwise. */
  function LinkByUuid(t: seq<Row>, key: Stored, discord: string): seq<Row> {
    if FindDiscord(t, key).Some? then SetDiscordWhere(t, key, discord) else t + [Row(key, discord)]
  }

  /** The table after `setLinkedMinecraft(D, U)` with non-null U: update when D is linked, insert otherwise. */
  function LinkByDiscord(t: seq<Row>, discord: string, key: Stored): seq<Row> {
    if FindUuid(t, discord).Some? then SetUuidWhere(t, discord, key) else t + [Row(key, discord)]
  }
}
