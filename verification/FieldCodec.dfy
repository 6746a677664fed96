/** Canonical 32-byte field elements and the cursor readers both snapshot formats share. */
module FieldCodec {
  import opened NodeHash
  import opened TreeErrors
  import opened Bytes

  lemma ModulusFits()
    ensures MODULUS < Pow256(32)
  {
    Pow256Values();
    assert Pow256(10) == 65536 * Pow256(8);
    assert Pow256(12) == 65536 * Pow256(10);
    assert Pow256(14) == 65536 * Pow256(12);
    assert Pow256(16) == 65536 * Pow256(14);
    assert Pow256(18) == 65536 * Pow256(16);
    assert Pow256(20) == 65536 * Pow256(18);
    assert Pow256(22) == 65536 * Pow256(20);
    assert Pow256(24) == 65536 * Pow256(22);
    assert Pow256(26) == 65536 * Pow256(24);
    assert Pow256(28) == 65536 * Pow256(26);
    assert Pow256(30) == 65536 * Pow256(28);
    assert Pow256(32) == 65536 * Pow256(30);
  }

  /** `fr_to_be_32`. */
  function FieldBytes(f: Fr): (bytes: seq<Byte>)
    ensures |bytes| == 32
  {
    BigEndian(f.value, 32)
  }

  /** `fr_from_be_32_checked`: an encoding at or above the modulus is rejected. */
  function FieldFromBytes(bytes: seq<Byte>): Option<Fr> {
    if |bytes| == 32 && FromBigEndian(bytes) < MODULUS then Some(Felt(FromBigEndian(bytes))) else None
  }

  lemma FieldIff(bytes: seq<Byte>, f: Fr)
    requires |bytes| == 32
    ensures FieldFromBytes(bytes) == Some(f) <==> bytes == FieldBytes(f)
  {
    ModulusFits();
    BigEndianIff(bytes, f.value);
  }

  function FieldsBytes(fields: seq<Fr>): (bytes: seq<Byte>)
    ensures |bytes| == 32 * |fields|
  {
    if fields == [] then [] else FieldsBytes(fields[..|fields| - 1]) + FieldBytes(fields[|fields| - 1])
  }

  /** `append_fields`. */
  method AppendFields(bytes: seq<Byte>, fields: seq<Fr>) returns (longer: seq<Byte>)
    ensures longer == bytes + FieldsBytes(fields)
  {
    longer := bytes;
    for i := 0 to |fields|
      invariant longer == bytes + FieldsBytes(fields[..i])
    {
      assert fields[..i + 1][..i] == fields[..i];
      longer := longer + FieldBytes(fields[i]);
    }
    assert fields[..|fields|] == fields;
  }

  type Parsed<T> = Result<(T, nat)>

  /** `read_u32_at_cursor`. */
  function ReadU32(bytes: seq<Byte>, cursor: nat): Parsed<nat> {
    if cursor + 4 > |bytes| then Err(InvalidSnapshot) else Ok((FromBigEndian(bytes[cursor..cursor + 4]), cursor + 4))
  }

  lemma ReadU32Iff(bytes: seq<Byte>, cursor: nat, n: nat, next: nat)
    ensures ReadU32(bytes, cursor) == Ok((n, next))
       <==> n < Pow256(4) && next == cursor + 4 && At(bytes, cursor, BigEndian(n, 4))
  {
    if cursor + 4 <= |bytes| {
      FromBigEndianBound(bytes[cursor..cursor + 4]);
      if n < Pow256(4) {
        BigEndianIff(bytes[cursor..cursor + 4], n);
      }
    }
  }

  /** `read_field`. */
  function ReadField(bytes: seq<Byte>, cursor: nat): Parsed<Fr> {
    if cursor + 32 > |bytes| then Err(InvalidSnapshot)
    else
      match FieldFromBytes(bytes[cursor..cursor + 32])
      case Some(f) => Ok((f, cursor + 32))
      case None => Err(InvalidSnapshot)
  }

  lemma ReadFieldIff(bytes: seq<Byte>, cursor: nat, f: Fr, next: nat)
    ensures ReadField(bytes, cursor) == Ok((f, next)) <==> next == cursor + 32 && At(bytes, cursor, FieldBytes(f))
  {
    hide BigEndian, FromBigEndian;
    if cursor + 32 <= |bytes| {
      FieldIff(bytes[cursor..cursor + 32], f);
    }
  }

  /** `read_fields`. */
  function ReadFields(bytes: seq<Byte>, cursor: nat, count: nat): Parsed<seq<Fr>> {
    if count == 0 then Ok(([], cursor))
    else
      var (fields, next) :- ReadFields(bytes, cursor, count - 1);
      var (f, end) :- ReadField(bytes, next);
      Ok((fields + [f], end))
  }

  /** Reading `count` fields succeeds exactly on their encoding, whatever surrounds it. */
  lemma {:induction false} ReadFieldsIff(bytes: seq<Byte>, cursor: nat, fields: seq<Fr>, next: nat)
    requires cursor <= |bytes|
    ensures ReadFields(bytes, cursor, |fields|) == Ok((fields, next))
       <==> next == cursor + 32 * |fields| && At(bytes, cursor, FieldsBytes(fields))
  {
    hide ReadField, FieldBytes;
    if fields == [] {
      ReadFieldsEnd(bytes, cursor, 0);
    } else {
      var last := |fields| - 1;
      var before, f := fields[..last], fields[last];
      ReadFieldsIff(bytes, cursor, before, cursor + 32 * last);
      ReadFieldIff(bytes, cursor + 32 * last, f, next);
      AtConcat(bytes, cursor, FieldsBytes(before), FieldBytes(f));
      ReadFieldsEnd(bytes, cursor, last);
      assert before + [f] == fields;
      if ReadFields(bytes, cursor, |fields|) == Ok((fields, next)) {
        var (g, at) := ReadFields(bytes, cursor, last).value;
        var read := ReadField(bytes, at).value.0;
        assert fields == g + [read] && g == before && read == f;
      }
    }
  }

  lemma {:induction false} ReadFieldsEnd(bytes: seq<Byte>, cursor: nat, count: nat)
    ensures ReadFields(bytes, cursor, count).Ok? ==>
      && |ReadFields(bytes, cursor, count).value.0| == count
      && ReadFields(bytes, cursor, count).value.1 == cursor + 32 * count
      && (count > 0 ==> cursor + 32 * count <= |bytes|)
  {
    hide FieldFromBytes;
    if count > 0 {
      ReadFieldsEnd(bytes, cursor, count - 1);
    }
  }

  /** The reader as the source runs it: a loop moving the cursor. */
  method ReadFieldsAt(bytes: seq<Byte>, cursor: nat, count: nat) returns (r: Parsed<seq<Fr>>)
    ensures r == ReadFields(bytes, cursor, count)
  {
    hide ReadField;
    var fields, at := [], cursor;
    for i := 0 to count
      invariant ReadFields(bytes, cursor, i) == Ok((fields, at))
    {
      var one := ReadField(bytes, at);
      ReadFieldsStop(bytes, cursor, i + 1, count);
      if one.Err? {
        return Err(one.error);
      }
      fields, at := fields + [one.value.0], one.value.1;
    }
    r := Ok((fields, at));
  }

  lemma {:induction false} ReadFieldsStop(bytes: seq<Byte>, cursor: nat, i: nat, count: nat)
    requires i <= count
    ensures ReadFields(bytes, cursor, i).Err? ==> ReadFields(bytes, cursor, count) == ReadFields(bytes, cursor, i)
  {
    if i < count {
      ReadFieldsStop(bytes, cursor, i, count - 1);
    }
  }
}
