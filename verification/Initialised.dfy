/** Initialised struct memory, byte by byte: the values the descriptor points to, or zeros, at every depth. */
module Initialised {
  import opened Words
  import opened Scalars
  import opened Descriptor
  import opened FieldIterator
  import opened StructLayout

  /** All bytes are zero. */
  predicate AllZero(bytes: seq<byte>) {
    forall k :: 0 <= k < |bytes| ==> bytes[k] == 0
  }

  /** A data cell after initialisation: the declared value; without one, zero bytes as far as they are read. */
  ghost predicate InitItem(f: Field, bytes: seq<byte>)
    requires LaidField(f) && |bytes| == f.dataSize
    decreases f, 0
  {
    if f.ltype.LSubmessage? then InitAll(f.ltype.fields, bytes)
    else match f.init
      case Some(v) => Holds(f, bytes, v)
      case None =>
        match f.ltype
        case LVarint | LUVarint | LSVarint | LFixed32 | LFixed64 | LFixedLengthBytes => AllZero(bytes)
        case LBytes => AllZero(bytes[..BYTES_HEADER])
        case LString => bytes[0] == 0
        case LSubmessage(_) => false
  }

  /** has_, count and which_ are zero. */
  ghost predicate InitSlot(f: Field, data: seq<byte>, cell: seq<byte>)
    requires LaidField(f) && |data| == MemberSize(f) && |cell| == CellSize(f)
    decreases f, 1
  {
    AllZero(cell) && (f.htype.Required? || f.htype.Optional? ==> InitItem(f, data))
  }

  ghost predicate InitAt(fields: seq<Field>, bytes: seq<byte>, i: nat)
    requires Laid(fields, |bytes|) && i < |fields|
    decreases fields, 2
  {
    assert InStruct(fields, i, |bytes|) && fields[i] in fields;
    InitSlot(fields[i], DataBytes(fields, bytes, i), CellBytes(fields, bytes, i))
  }

  ghost predicate InitAll(fields: seq<Field>, bytes: seq<byte>)
    requires Laid(fields, |bytes|)
    decreases fields, 3
  {
    forall i :: 0 <= i < |fields| ==> InitAt(fields, bytes, i)
  }

  lemma {:induction false} ZeroValue(bs: seq<byte>)
    ensures FromLittleEndian(bs) == 0 <==> AllZero(bs)
  {
    if bs != [] {
      ZeroValue(bs[1..]);
      if AllZero(bs[1..]) && bs[0] == 0 {
        forall k | 0 <= k < |bs| ensures bs[k] == 0 {
          if k > 0 { assert bs[k] == bs[1..][k - 1]; }
        }
      }
    }
  }

  lemma {:induction false} HoldsInitItem(f: Field, bytes: seq<byte>)
    requires LaidField(f) && |bytes| == f.dataSize && Holds(f, bytes, DefaultItem(f))
    ensures InitItem(f, bytes)
    decreases f, 0
  {
    if f.ltype.LSubmessage? {
      HoldsInit(f.ltype.fields, bytes);
    } else if f.init.None? {
      ZeroWord(f.dataSize);
      ZeroValue(bytes);
      if f.ltype.LBytes? { ZeroValue(bytes[..BYTES_HEADER]); }
    }
  }

  lemma {:induction false} HoldsInitSlot(f: Field, data: seq<byte>, cell: seq<byte>)
    requires LaidField(f) && |data| == MemberSize(f) && |cell| == CellSize(f) && HoldsSlot(f, data, cell, DefaultSlot(f))
    ensures InitSlot(f, data, cell)
    decreases f, 1
  {
    ZeroValue(cell);
    if f.htype.Required? || f.htype.Optional? { HoldsInitItem(f, data); }
  }

  lemma {:induction false} HoldsInitAt(fields: seq<Field>, bytes: seq<byte>, i: nat)
    requires Laid(fields, |bytes|) && i < |fields| && HoldsEntry(fields, bytes, i, DefaultSlot(fields[i]))
    ensures InitAt(fields, bytes, i)
    decreases fields, 0
  {
    assert InStruct(fields, i, |bytes|) && fields[i] in fields;
    HoldsInitSlot(fields[i], DataBytes(fields, bytes, i), CellBytes(fields, bytes, i));
  }

  /** Bytes that represent the default message are initialised. */
  lemma {:induction false} HoldsInit(fields: seq<Field>, bytes: seq<byte>)
    requires Laid(fields, |bytes|) && HoldsAll(fields, bytes, Defaults(fields))
    ensures InitAll(fields, bytes)
    decreases fields, 1
  {
    forall i | 0 <= i < |fields| ensures InitAt(fields, bytes, i) {
      DefaultsAt(fields, i);
      assert HoldsAt(fields, bytes, Defaults(fields), i);
      HoldsInitAt(fields, bytes, i);
    }
  }
}
