/**
 * The `codes(code, uuid)` table of pending linking codes, as a sequence of
 * rows in the order the backend returns them.
 */
module LinkingCodes {
  import opened Options
  import opened Uuids
  import opened Representation

  datatype CodeRow = CodeRow(code: string, uuid: Stored)

  /** The codes the table holds, each once however many rows carry it. */
  function Codes(rows: seq<CodeRow>): set<string> {
    set i | 0 <= i < |rows| :: rows[i].code
  }

  /** Dropping the last row drops its code, unless an earlier row carries it too. */
  lemma CodesSnoc(rows: seq<CodeRow>)
    requires rows != []
    ensures Codes(rows) == Codes(rows[..|rows| - 1]) + {rows[|rows| - 1].code}
  {
    var front := rows[..|rows| - 1];
    forall c | c in Codes(rows) ensures c in Codes(front) + {rows[|rows| - 1].code} {
      var i :| 0 <= i < |rows| && rows[i].code == c;
      if i < |front| { assert front[i].code == c; }
    }
    forall c | c in Codes(front) ensures c in Codes(rows) {
      var i :| 0 <= i < |front| && front[i].code == c;
      assert rows[i].code == c;
    }
  }

  /**
   * The loop of `getLinkingCodes`: every row, in order, is put into a map, so
   * a later row with the same code overwrites an earlier one. None when a
   * uuid value does not decode (the read throws, and the map is lost).
   */
  function Collect(rows: seq<CodeRow>, native: bool): Option<map<string, Uuid>>
    decreases |rows|
  {
    if rows == [] then Some(map[])
    else
      match (Collect(rows[..|rows| - 1], native), Decode(native, rows[|rows| - 1].uuid))
      case (Some(m), Some(u)) => Some(m[rows[|rows| - 1].code := u])
      case _ => None
  }

  /** One more row of the table extends the listing of the rows before it. */
  lemma CollectStep(rows: seq<CodeRow>, native: bool, i: nat, m: map<string, Uuid>, u: Uuid)
    requires i < |rows| && Collect(rows[..i], native) == Some(m) && Decode(native, rows[i].uuid) == Some(u)
    ensures Collect(rows[..i + 1], native) == Some(m[rows[i].code := u])
  {
    assert rows[..i + 1][..i] == rows[..i];
  }

  /** A row whose uuid value does not decode makes the whole listing fail. */
  lemma {:induction false} CollectFailsAt(rows: seq<CodeRow>, native: bool, i: nat)
    requires i < |rows| && Decode(native, rows[i].uuid).None?
    ensures Collect(rows, native).None?
    decreases |rows|
  {
    var front := rows[..|rows| - 1];
    if i < |front| {
      assert front[i] == rows[i];
      CollectFailsAt(front, native, i);
      assert Collect(front, native).None?;
    } else {
      assert Decode(native, rows[|rows| - 1].uuid).None?;
    }
  }

  /** When every uuid value decodes, the listing succeeds. */
  lemma {:induction false} CollectSucceeds(rows: seq<CodeRow>, native: bool)
    requires forall i :: 0 <= i < |rows| ==> Decode(native, rows[i].uuid).Some?
    ensures Collect(rows, native).Some?
    decreases |rows|
  {
    if rows != [] {
      var front := rows[..|rows| - 1];
      assert forall i :: 0 <= i < |front| ==> front[i] == rows[i];
      CollectSucceeds(front, native);
    }
  }

  /** The listing fails exactly when some row's uuid value does not decode. */
  lemma CollectFails(rows: seq<CodeRow>, native: bool)
    ensures Collect(rows, native).None? <==> exists i :: 0 <= i < |rows| && Decode(native, rows[i].uuid).None?
  {
    if i :| 0 <= i < |rows| && Decode(native, rows[i].uuid).None? {
      CollectFailsAt(rows, native, i);
    } else {
      CollectSucceeds(rows, native);
    }
  }

  /** A listing holds every code of the table and no other. */
  lemma {:induction false} CollectKeys(rows: seq<CodeRow>, native: bool)
    requires Collect(rows, native).Some?
    ensures Collect(rows, native).value.Keys == Codes(rows)
    decreases |rows|
  {
    if rows != [] {
      CollectKeys(rows[..|rows| - 1], native);
      CodesSnoc(rows);
    }
  }

  /** Each code maps to the identifier of the LAST row that carries it. */
  lemma {:induction false} CollectLastWins(rows: seq<CodeRow>, native: bool, i: nat)
    requires Collect(rows, native).Some?
    requires i < |rows|
    requires forall j :: i < j < |rows| ==> rows[j].code != rows[i].code
    ensures Decode(native, rows[i].uuid).Some?
    ensures var m := Collect(rows, native).value; rows[i].code in m && m[rows[i].code] == Decode(native, rows[i].uuid).value
    decreases |rows|
  {
    var front := rows[..|rows| - 1];
    if i < |rows| - 1 {
      assert front[i] == rows[i];
      assert forall j :: i < j < |front| ==> front[j] == rows[j];
      CollectLastWins(front, native, i);
    }
  }

  /** Storing a code and then listing the codes yields the earlier listing with this code put last. */
  lemma CollectAfterStore(rows: seq<CodeRow>, native: bool, code: string, u: Uuid)
    ensures Collect(rows + [CodeRow(code, Encode(native, u))], native) ==
      match Collect(rows, native)
      case Some(m) => Some(m[code := u])
      case None => None
  {
    var rows' := rows + [CodeRow(code, Encode(native, u))];
    assert rows'[..|rows'| - 1] == rows;
    DecodeOfEncode(native, u);
  }

  /** A value for the `code = ?` placeholder: bound to a string, or never set. */
  datatype Param = Bound(value: string) | Unset

  /** SQL compares an unset placeholder as NULL, and a comparison with NULL never holds. */
  predicate Matches(code: string, p: Param) {
    p.Bound? && p.value == code
  }

  /** `select uuid from codes where code = ?`, reading the first row; None when no row matches. */
  function FindCode(rows: seq<CodeRow>, p: Param): (r: Option<Stored>)
    ensures r.None? <==> forall i :: 0 <= i < |rows| ==> !Matches(rows[i].code, p)
    ensures r.Some? ==> exists i :: && 0 <= i < |rows| && Matches(rows[i].code, p) && rows[i].uuid == r.value
                                    && forall j :: 0 <= j < i ==> !Matches(rows[j].code, p)
  {
    if rows == [] then None
    else if Matches(rows[0].code, p) then Some(rows[0].uuid)
    else FindCode(rows[1..], p)
  }

  lemma {:induction false} FindCodeAppend(rows: seq<CodeRow>, x: CodeRow, p: Param)
    ensures FindCode(rows + [x], p) ==
      if FindCode(rows, p).Some? then FindCode(rows, p)
      else if Matches(x.code, p) then Some(x.uuid) else None
  {
    if rows != [] {
      assert (rows + [x])[1..] == rows[1..] + [x];
      FindCodeAppend(rows[1..], x, p);
    }
  }

  /**
   * With the placeholder left unset, as `lookupCode` leaves it, the query
   * misses a code that was just stored, though binding the code finds it.
   */
  lemma UnsetParameterMissesStoredCode(rows: seq<CodeRow>, code: string, v: Stored)
    ensures FindCode(rows + [CodeRow(code, v)], Unset).None?
    ensures FindCode(rows + [CodeRow(code, v)], Bound(code)).Some?
  {
    FindCodeAppend(rows, CodeRow(code, v), Bound(code));
  }

  /** With the code bound, a freshly stored code is found and reads back as the stored identifier. */
  lemma FindCodeAfterStore(rows: seq<CodeRow>, native: bool, code: string, u: Uuid)
    requires code !in Codes(rows)
    ensures var found := FindCode(rows + [CodeRow(code, Encode(native, u))], Bound(code));
      found.Some? && Decode(native, found.value) == Some(u)
  {
    assert forall i :: 0 <= i < |rows| ==> rows[i].code in Codes(rows);
    FindCodeAppend(rows, CodeRow(code, Encode(native, u)), Bound(code));
    DecodeOfEncode(native, u);
  }
}
