/**
 * What the update-or-insert and delete state changes of the `accounts`
 * table guarantee, and what they do not: uniqueness holds on the side the
 * call is keyed by, never on the other side.
 */
module AccountProperties {
  import opened Options
  import opened Representation
  import opened Accounts

  // ---------------------------------------------------------------------
  // Helper facts about queries and counts

  lemma {:induction false} FindDiscordAppend(t: seq<Row>, x: Row, key: Stored)
    ensures FindDiscord(t + [x], key) ==
      if FindDiscord(t, key).Some? then FindDiscord(t, key)
      else if x.uuid == key then Some(x.discord) else None
  {
    if t != [] {
      assert (t + [x])[1..] == t[1..] + [x];
      FindDiscordAppend(t[1..], x, key);
    }
  }

  lemma {:induction false} FindUuidAppend(t: seq<Row>, x: Row, discord: string)
    ensures FindUuid(t + [x], discord) ==
      if FindUuid(t, discord).Some? then FindUuid(t, discord)
      else if x.discord == discord then Some(x.uuid) else None
  {
    if t != [] {
      assert (t + [x])[1..] == t[1..] + [x];
      FindUuidAppend(t[1..], x, discord);
    }
  }

  /** A uuid lookup sees only the rows holding that uuid. */
  lemma {:induction false} FindDiscordAgrees(t: seq<Row>, t': seq<Row>, key: Stored)
    requires |t| == |t'|
    requires forall i :: 0 <= i < |t| && (t[i].uuid == key || t'[i].uuid == key) ==> t[i] == t'[i]
    ensures FindDiscord(t, key) == FindDiscord(t', key)
  {
    if t != [] {
      FindDiscordAgrees(t[1..], t'[1..], key);
    }
  }

  /** A discord lookup sees only the rows holding that discord id. */
  lemma {:induction false} FindUuidAgrees(t: seq<Row>, t': seq<Row>, discord: string)
    requires |t| == |t'|
    requires forall i :: 0 <= i < |t| && (t[i].discord == discord || t'[i].discord == discord) ==> t[i] == t'[i]
    ensures FindUuid(t, discord) == FindUuid(t', discord)
  {
    if t != [] {
      FindUuidAgrees(t[1..], t'[1..], discord);
    }
  }

  lemma {:induction false} CountUuidAppend(t: seq<Row>, x: Row, key: Stored)
    ensures CountUuid(t + [x], key) == CountUuid(t, key) + (if x.uuid == key then 1 else 0)
  {
    if t != [] {
      assert (t + [x])[1..] == t[1..] + [x];
      CountUuidAppend(t[1..], x, key);
    }
  }

  lemma {:induction false} CountDiscordAppend(t: seq<Row>, x: Row, discord: string)
    ensures CountDiscord(t + [x], discord) == CountDiscord(t, discord) + (if x.discord == discord then 1 else 0)
  {
    if t != [] {
      assert (t + [x])[1..] == t[1..] + [x];
      CountDiscordAppend(t[1..], x, discord);
    }
  }

  /** Counts by uuid depend on the uuid column only. */
  lemma {:induction false} CountUuidSameColumn(t: seq<Row>, t': seq<Row>, key: Stored)
    requires |t| == |t'|
    requires forall i :: 0 <= i < |t| ==> t[i].uuid == t'[i].uuid
    ensures CountUuid(t, key) == CountUuid(t', key)
  {
    if t != [] {
      CountUuidSameColumn(t[1..], t'[1..], key);
    }
  }

  /** Counts by discord id depend on the discord column only. */
  lemma {:induction false} CountDiscordSameColumn(t: seq<Row>, t': seq<Row>, discord: string)
    requires |t| == |t'|
    requires forall i :: 0 <= i < |t| ==> t[i].discord == t'[i].discord
    ensures CountDiscord(t, discord) == CountDiscord(t', discord)
  {
    if t != [] {
      CountDiscordSameColumn(t[1..], t'[1..], discord);
    }
  }

  // ---------------------------------------------------------------------
  // setLinkedDiscord(U, D), D non-null

  /** Afterwards `getDiscordId(U)` is D, whatever rows the table held before. */
  lemma LinkByUuidLinks(t: seq<Row>, key: Stored, discord: string)
    ensures FindDiscord(LinkByUuid(t, key, discord), key) == Some(discord)
  {
    if FindDiscord(t, key).None? {
      FindDiscordAppend(t, Row(key, discord), key);
    } else {
      var r := SetDiscordWhere(t, key, discord);
      var i :| 0 <= i < |t| && t[i].uuid == key;
      assert r[i].uuid == key;
      assert forall j :: 0 <= j < |r| && r[j].uuid == key ==> r[j].discord == discord;
    }
  }

  /** Rows of other uuids stay where they were, the new row is the only one added, and other uuids look up as before. */
  lemma LinkByUuidFrame(t: seq<Row>, key: Stored, discord: string)
    ensures var r := LinkByUuid(t, key, discord);
      && |t| <= |r| <= |t| + 1
      && (forall i :: 0 <= i < |t| ==> r[i] == if t[i].uuid == key then Row(key, discord) else t[i])
      && (forall i :: |t| <= i < |r| ==> r[i] == Row(key, discord))
      && (forall other :: other != key ==> FindDiscord(r, other) == FindDiscord(t, other))
  {
    var r := LinkByUuid(t, key, discord);
    forall other | other != key
      ensures FindDiscord(r, other) == FindDiscord(t, other)
    {
      if FindDiscord(t, key).Some? {
        FindDiscordAgrees(t, r, other);
      } else {
        FindDiscordAppend(t, Row(key, discord), other);
      }
    }
  }

  /** After the call exactly max(1, before) rows hold U, and no other uuid's count changes. */
  lemma LinkByUuidCounts(t: seq<Row>, key: Stored, discord: string)
    ensures var r := LinkByUuid(t, key, discord);
      && CountUuid(r, key) == (if CountUuid(t, key) == 0 then 1 else CountUuid(t, key))
      && forall other :: other != key ==> CountUuid(r, other) == CountUuid(t, other)
  {
    var r := LinkByUuid(t, key, discord);
    if FindDiscord(t, key).Some? {
      forall other { CountUuidSameColumn(t, r, other); }
    } else {
      forall other { CountUuidAppend(t, Row(key, discord), other); }
    }
  }

  /** "At most one row per uuid" is an invariant of the uuid-keyed update-or-insert. */
  lemma LinkByUuidKeepsAtMostOnePerUuid(t: seq<Row>, key: Stored, discord: string)
    requires AtMostOnePerUuid(t)
    ensures AtMostOnePerUuid(LinkByUuid(t, key, discord))
  {
    LinkByUuidCounts(t, key, discord);
  }

  /** A second identical call is an update that changes nothing. */
  lemma LinkByUuidIdempotent(t: seq<Row>, key: Stored, discord: string)
    ensures LinkByUuid(LinkByUuid(t, key, discord), key, discord) == LinkByUuid(t, key, discord)
  {
    var r := LinkByUuid(t, key, discord);
    LinkByUuidLinks(t, key, discord);
    LinkByUuidFrame(t, key, discord);
    assert SetDiscordWhere(r, key, discord) == r;
  }

  /** When no other uuid holds D, `getUuid(D)` answers U afterwards. */
  lemma LinkByUuidResolvesBack(t: seq<Row>, key: Stored, discord: string)
    requires forall i :: 0 <= i < |t| && t[i].discord == discord ==> t[i].uuid == key
    ensures FindUuid(LinkByUuid(t, key, discord), discord) == Some(key)
  {
    var r := LinkByUuid(t, key, discord);
    LinkByUuidFrame(t, key, discord);
    assert r[|r| - 1].discord == discord || r[|r| - 1].uuid != key;
    if FindDiscord(t, key).Some? {
      assert exists i :: 0 <= i < |r| && r[i].discord == discord;
    } else {
      assert r[|r| - 1] == Row(key, discord);
    }
  }

  /**
   * The discord side is not kept unique: linking a second uuid to a discord id
   * that is already linked inserts a second row with it, and `getUuid` keeps
   * answering the first uuid.
   */
  lemma LinkByUuidMayShareDiscord(first: Stored, second: Stored, discord: string)
    requires first != second
    ensures AtMostOnePerDiscord([Row(first, discord)])
    ensures var r := LinkByUuid([Row(first, discord)], second, discord);
      && r == [Row(first, discord), Row(second, discord)]
      && CountDiscord(r, discord) == 2
      && FindUuid(r, discord) == Some(first)
  {
    assert FindDiscord([Row(first, discord)], second).None?;
  }

  // ---------------------------------------------------------------------
  // setLinkedDiscord(U, null)

  /** Every row left by the delete is a row of the table that does not hold U. */
  lemma {:induction false} DeleteUuidRemoves(t: seq<Row>, key: Stored)
    ensures forall i :: 0 <= i < |DeleteUuid(t, key)| ==> DeleteUuid(t, key)[i].uuid != key && DeleteUuid(t, key)[i] in t
  {
    if t != [] {
      DeleteUuidRemoves(t[1..], key);
      var r, rest := DeleteUuid(t, key), DeleteUuid(t[1..], key);
      var kept := t[0].uuid != key;
      assert r == (if kept then [t[0]] else []) + rest;
      forall i | 0 <= i < |r| ensures r[i].uuid != key && r[i] in t {
        if !(kept && i == 0) {
          var j := if kept then i - 1 else i;
          assert r[i] == rest[j] && rest[j] in t[1..];
        }
      }
    }
  }

  /**
   * The delete works row by row and keeps the order of what it keeps: over a
   * table split in two, it is the delete of the first part followed by the
   * delete of the second.
   */
  lemma {:induction false} DeleteUuidConcat(a: seq<Row>, b: seq<Row>, key: Stored)
    ensures DeleteUuid(a + b, key) == DeleteUuid(a, key) + DeleteUuid(b, key)
  {
    if a == [] {
      assert a + b == b;
    } else {
      assert (a + b)[0] == a[0] && (a + b)[1..] == a[1..] + b;
      DeleteUuidConcat(a[1..], b, key);
    }
  }

  /** The delete keeps every row that does not hold U, as often as the table held it. */
  lemma {:induction false} DeleteUuidKeepsOtherRows(t: seq<Row>, key: Stored)
    ensures forall x: Row :: x.uuid != key ==> multiset(DeleteUuid(t, key))[x] == multiset(t)[x]
  {
    if t != [] {
      DeleteUuidKeepsOtherRows(t[1..], key);
      assert t == [t[0]] + t[1..];
    }
  }

  /** Deleting by uuid keeps every other uuid's lookup. */
  lemma {:induction false} DeleteUuidKeepsLookup(t: seq<Row>, key: Stored, other: Stored)
    requires other != key
    ensures FindDiscord(DeleteUuid(t, key), other) == FindDiscord(t, other)
  {
    if t != [] {
      DeleteUuidKeepsLookup(t[1..], key, other);
      var rest := DeleteUuid(t[1..], key);
      if t[0].uuid != key {
        assert DeleteUuid(t, key) == [t[0]] + rest;
        assert ([t[0]] + rest)[1..] == rest;
      } else {
        assert DeleteUuid(t, key) == rest;
      }
    }
  }

  /** Deleting by uuid keeps every other uuid's count. */
  lemma {:induction false} DeleteUuidKeepsCount(t: seq<Row>, key: Stored, other: Stored)
    requires other != key
    ensures CountUuid(DeleteUuid(t, key), other) == CountUuid(t, other)
  {
    if t != [] {
      DeleteUuidKeepsCount(t[1..], key, other);
      var rest := DeleteUuid(t[1..], key);
      if t[0].uuid != key {
        assert DeleteUuid(t, key) == [t[0]] + rest;
        assert ([t[0]] + rest)[1..] == rest;
      } else {
        assert DeleteUuid(t, key) == rest;
      }
    }
  }

  /** After the delete `getDiscordId(U)` is null and no row holds U; other uuids are as before. */
  lemma DeleteUuidUnlinks(t: seq<Row>, key: Stored)
    ensures var r := DeleteUuid(t, key);
      && FindDiscord(r, key).None? && CountUuid(r, key) == 0
      && (forall other :: other != key ==> FindDiscord(r, other) == FindDiscord(t, other))
      && (forall other :: other != key ==> CountUuid(r, other) == CountUuid(t, other))
      && (AtMostOnePerUuid(t) ==> AtMostOnePerUuid(r))
  {
    DeleteUuidRemoves(t, key);
    forall other | other != key
      ensures FindDiscord(DeleteUuid(t, key), other) == FindDiscord(t, other)
      ensures CountUuid(DeleteUuid(t, key), other) == CountUuid(t, other)
    {
      DeleteUuidKeepsLookup(t, key, other);
      DeleteUuidKeepsCount(t, key, other);
    }
  }

  // ---------------------------------------------------------------------
  // setLinkedMinecraft(D, U), U non-null

  /** Afterwards the first row with D holds U, whatever rows the table held before. */
  lemma LinkByDiscordLinks(t: seq<Row>, discord: string, key: Stored)
    ensures FindUuid(LinkByDiscord(t, discord, key), discord) == Some(key)
  {
    if FindUuid(t, discord).None? {
      FindUuidAppend(t, Row(key, discord), discord);
    } else {
      var r := SetUuidWhere(t, discord, key);
      var i :| 0 <= i < |t| && t[i].discord == discord;
      assert r[i].discord == discord;
      assert forall j :: 0 <= j < |r| && r[j].discord == discord ==> r[j].uuid == key;
    }
  }

  /** Rows of other discord ids stay where they were, the new row is the only one added, and other discord ids look up as before. */
  lemma LinkByDiscordFrame(t: seq<Row>, discord: string, key: Stored)
    ensures var r := LinkByDiscord(t, discord, key);
      && |t| <= |r| <= |t| + 1
      && (forall i :: 0 <= i < |t| ==> r[i] == if t[i].discord == discord then Row(key, discord) else t[i])
      && (forall i :: |t| <= i < |r| ==> r[i] == Row(key, discord))
      && (forall other :: other != discord ==> FindUuid(r, other) == FindUuid(t, other))
  {
    var r := LinkByDiscord(t, discord, key);
    forall other | other != discord
      ensures FindUuid(r, other) == FindUuid(t, other)
    {
      if FindUuid(t, discord).Some? {
        FindUuidAgrees(t, r, other);
      } else {
        FindUuidAppend(t, Row(key, discord), other);
      }
    }
  }

  /** After the call exactly max(1, before) rows hold D, and no other discord id's count changes. */
  lemma LinkByDiscordCounts(t: seq<Row>, discord: string, key: Stored)
    ensures var r := LinkByDiscord(t, discord, key);
      && CountDiscord(r, discord) == (if CountDiscord(t, discord) == 0 then 1 else CountDiscord(t, discord))
      && forall other :: other != discord ==> CountDiscord(r, other) == CountDiscord(t, other)
  {
    var r := LinkByDiscord(t, discord, key);
    if FindUuid(t, discord).Some? {
      forall other { CountDiscordSameColumn(t, r, other); }
    } else {
      forall other { CountDiscordAppend(t, Row(key, discord), other); }
    }
  }

  /** "At most one row per discord id" is an invariant of the discord-keyed update-or-insert. */
  lemma LinkByDiscordKeepsAtMostOnePerDiscord(t: seq<Row>, discord: string, key: Stored)
    requires AtMostOnePerDiscord(t)
    ensures AtMostOnePerDiscord(LinkByDiscord(t, discord, key))
  {
    LinkByDiscordCounts(t, discord, key);
  }

  /** A second identical call is an update that changes nothing. */
  lemma LinkByDiscordIdempotent(t: seq<Row>, discord: string, key: Stored)
    ensures LinkByDiscord(LinkByDiscord(t, discord, key), discord, key) == LinkByDiscord(t, discord, key)
  {
    var r := LinkByDiscord(t, discord, key);
    LinkByDiscordLinks(t, discord, key);
    LinkByDiscordFrame(t, discord, key);
    assert SetUuidWhere(r, discord, key) == r;
  }

  /** When no other discord id holds U, `getDiscordId(U)` answers D afterwards. */
  lemma LinkByDiscordResolvesBack(t: seq<Row>, discord: string, key: Stored)
    requires forall i :: 0 <= i < |t| && t[i].uuid == key ==> t[i].discord == discord
    ensures FindDiscord(LinkByDiscord(t, discord, key), key) == Some(discord)
  {
    var r := LinkByDiscord(t, discord, key);
    LinkByDiscordFrame(t, discord, key);
    if FindUuid(t, discord).Some? {
      assert exists i :: 0 <= i < |r| && r[i].uuid == key;
    } else {
      assert r[|r| - 1] == Row(key, discord);
    }
  }

  /**
   * The uuid side is not kept unique: linking a second discord id to a uuid
   * that is already linked inserts a second row with it, and `getDiscordId`
   * keeps answering the first discord id.
   */
  lemma LinkByDiscordMayShareUuid(key: Stored, first: string, second: string)
    requires first != second
    ensures AtMostOnePerUuid([Row(key, first)])
    ensures var r := LinkByDiscord([Row(key, first)], second, key);
      && r == [Row(key, first), Row(key, second)]
      && CountUuid(r, key) == 2
      && FindDiscord(r, key) == Some(first)
  {
    assert FindUuid([Row(key, first)], second).None?;
  }

  // ---------------------------------------------------------------------
  // setLinkedMinecraft(D, null)

  /** Every row left by the delete is a row of the table that does not hold D. */
  lemma {:induction false} DeleteDiscordRemoves(t: seq<Row>, discord: string)
    ensures forall i :: 0 <= i < |DeleteDiscord(t, discord)| ==> DeleteDiscord(t, discord)[i].discord != discord && DeleteDiscord(t, discord)[i] in t
  {
    if t != [] {
      DeleteDiscordRemoves(t[1..], discord);
      var r, rest := DeleteDiscord(t, discord), DeleteDiscord(t[1..], discord);
      var kept := t[0].discord != discord;
      assert r == (if kept then [t[0]] else []) + rest;
      forall i | 0 <= i < |r| ensures r[i].discord != discord && r[i] in t {
        if !(kept && i == 0) {
          var j := if kept then i - 1 else i;
          assert r[i] == rest[j] && rest[j] in t[1..];
        }
      }
    }
  }

  /**
   * The delete works row by row and keeps the order of what it keeps: over a
   * table split in two, it is the delete of the first part followed by the
   * delete of the second.
   */
  lemma {:induction false} DeleteDiscordConcat(a: seq<Row>, b: seq<Row>, discord: string)
    ensures DeleteDiscord(a + b, discord) == DeleteDiscord(a, discord) + DeleteDiscord(b, discord)
  {
    if a == [] {
      assert a + b == b;
    } else {
      assert (a + b)[0] == a[0] && (a + b)[1..] == a[1..] + b;
      DeleteDiscordConcat(a[1..], b, discord);
    }
  }

  /** The delete keeps every row that does not hold D, as often as the table held it. */
  lemma {:induction false} DeleteDiscordKeepsOtherRows(t: seq<Row>, discord: string)
    ensures forall x: Row :: x.discord != discord ==> multiset(DeleteDiscord(t, discord))[x] == multiset(t)[x]
  {
    if t != [] {
      DeleteDiscordKeepsOtherRows(t[1..], discord);
      assert t == [t[0]] + t[1..];
    }
  }

  /** Deleting by discord id keeps every other discord id's lookup. */
  lemma {:induction false} DeleteDiscordKeepsLookup(t: seq<Row>, discord: string, other: string)
    requires other != discord
    ensures FindUuid(DeleteDiscord(t, discord), other) == FindUuid(t, other)
  {
    if t != [] {
      DeleteDiscordKeepsLookup(t[1..], discord, other);
      var rest := DeleteDiscord(t[1..], discord);
      if t[0].discord != discord {
        assert DeleteDiscord(t, discord) == [t[0]] + rest;
        assert ([t[0]] + rest)[1..] == rest;
      } else {
        assert DeleteDiscord(t, discord) == rest;
      }
    }
  }

  /** Deleting by discord id keeps every other discord id's count. */
  lemma {:induction false} DeleteDiscordKeepsCount(t: seq<Row>, discord: string, other: string)
    requires other != discord
    ensures CountDiscord(DeleteDiscord(t, discord), other) == CountDiscord(t, other)
  {
    if t != [] {
      DeleteDiscordKeepsCount(t[1..], discord, other);
      var rest := DeleteDiscord(t[1..], discord);
      if t[0].discord != discord {
        assert DeleteDiscord(t, discord) == [t[0]] + rest;
        assert ([t[0]] + rest)[1..] == rest;
      } else {
        assert DeleteDiscord(t, discord) == rest;
      }
    }
  }

  /** After the delete `getUuid(D)` is null and no row holds D; other discord ids are as before. */
  lemma DeleteDiscordUnlinks(t: seq<Row>, discord: string)
    ensures var r := DeleteDiscord(t, discord);
      && FindUuid(r, discord).None? && CountDiscord(r, discord) == 0
      && (forall other :: other != discord ==> FindUuid(r, other) == FindUuid(t, other))
      && (forall other :: other != discord ==> CountDiscord(r, other) == CountDiscord(t, other))
      && (AtMostOnePerDiscord(t) ==> AtMostOnePerDiscord(r))
  {
    DeleteDiscordRemoves(t, discord);
    forall other | other != discord
      ensures FindUuid(DeleteDiscord(t, discord), other) == FindUuid(t, other)
      ensures CountDiscord(DeleteDiscord(t, discord), other) == CountDiscord(t, other)
    {
      DeleteDiscordKeepsLookup(t, discord, other);
      DeleteDiscordKeepsCount(t, discord, other);
    }
  }
}
