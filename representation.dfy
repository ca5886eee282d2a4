/**
 * How an identifier is held in a `uuid` column. The backend decides once,
 * through `canStoreNativeUuids()`, whether the column holds the identifier
 * itself or its canonical text form; every read and write goes through this
 * one codec.
 */
module Representation {
  import opened Options
  import opened Uuids

  /** A value of a `uuid` column: a native UUID object or a string. */
  datatype Stored = Native(id: Uuid) | Text(text: string)

  /** What `setObject` is given: the identifier itself, or `toString()` of it. */
  function Encode(native: bool, u: Uuid): (v: Stored)
    ensures v.Native? == native
  {
    if native then Native(u) else Text(ToText(u))
  }

  /**
   * A read of the column: `(UUID) getObject` in native mode, `UUID.fromString(getString)`
   * otherwise. None where Java throws (a value of the other mode's kind, or text
   * that is not an identifier).
   */
  function Decode(native: bool, v: Stored): (r: Option<Uuid>)
    ensures r.Some? ==> v.Native? == native
    ensures native && v.Native? ==> r == Some(v.id)
  {
    match v
    case Native(id) => if native then Some(id) else None
    case Text(text) => if native then None else FromText(text)
  }

  /** A column value as this codec writes it. */
  predicate IsCanonical(native: bool, v: Stored) {
    if native then v.Native? else v.Text? && IsCanonicalText(v.text)
  }

  /** The value written for an identifier reads back as that identifier, in either mode. */
  lemma DecodeOfEncode(native: bool, u: Uuid)
    ensures Decode(native, Encode(native, u)) == Some(u)
    ensures IsCanonical(native, Encode(native, u))
  {
    if !native {
      FromTextOfToText(u);
      ToTextIsCanonical(u);
    }
  }

  /** A canonical column value is the value written for the identifier it reads as. */
  lemma EncodeOfDecode(native: bool, v: Stored)
    requires IsCanonical(native, v)
    ensures Decode(native, v).Some? && Encode(native, Decode(native, v).value) == v
  {
    if !native {
      ToTextOfFromText(v.text);
    }
  }

  /** Two identifiers are stored alike only if they are equal, so a lookup by stored value is a lookup by identifier. */
  lemma EncodeInjective(native: bool, u: Uuid, w: Uuid)
    requires Encode(native, u) == Encode(native, w)
    ensures u == w
  {
    DecodeOfEncode(native, u);
    DecodeOfEncode(native, w);
  }

  /** On canonical column values, matching the stored form is matching the identifier read from it. */
  lemma EncodeMatchesDecode(native: bool, v: Stored, u: Uuid)
    requires IsCanonical(native, v)
    ensures v == Encode(native, u) <==> Decode(native, v) == Some(u)
  {
    EncodeOfDecode(native, v);
    DecodeOfEncode(native, u);
  }
}
