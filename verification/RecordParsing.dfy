/**
 Parsing one message level: read records one at a time and apply each to the message. The
 generated parse loops differ only in how a record is applied, so that is a parameter.
 */
module RecordParsing {
  import opened Basics
  import opened Varint
  import opened WireFormat

  /** `CodedInputStream::GetDefaultRecursionLimit()` */
  const RECURSION_LIMIT: nat := 100

  /** One record per iteration, until the bytes run out. */
  function ParseInto<M>(apply: (M, Field, nat) -> Outcome<M>, m: M, b: seq<byte>, d: nat): Outcome<M>
    decreases |b|
  {
    if b == [] then Success(m)
    else
      match ReadRecord(b, d)
      case Bad => Failure
      case Got(f, rest) =>
        match apply(m, f, d)
        case Failure => Failure
        case Success(m') => ParseInto(apply, m', rest, d)
  }

  /** A nested message: entering it uses up one level of depth. */
  function ParseMessage<M>(apply: (M, Field, nat) -> Outcome<M>, m: M, b: seq<byte>, d: nat): Outcome<M> {
    if d == 0 then Failure else ParseInto(apply, m, b, d - 1)
  }

  function ApplyAll<M>(apply: (M, Field, nat) -> Outcome<M>, m: M, fs: seq<Field>, d: nat): Outcome<M> {
    if fs == [] then Success(m)
    else
      match apply(m, fs[0], d)
      case Failure => Failure
      case Success(m') => ApplyAll(apply, m', fs[1..], d)
  }

  /** The rest of a parse whose next tag has already been read. */
  function AfterTag<M>(apply: (M, Field, nat) -> Outcome<M>, m: M, tag: nat, b: seq<byte>, d: nat): Outcome<M> {
    match ReadBody(tag, b, d)
    case Bad => Failure
    case Got(f, rest) => AfterField(apply, m, f, rest, d)
  }

  function AfterField<M>(apply: (M, Field, nat) -> Outcome<M>, m: M, f: Field, rest: seq<byte>, d: nat): Outcome<M> {
    match apply(m, f, d)
    case Failure => Failure
    case Success(m') => ParseInto(apply, m', rest, d)
  }

  lemma ParseNothing<M>(apply: (M, Field, nat) -> Outcome<M>, m: M, d: nat)
    ensures ParseInto(apply, m, [], d) == Success(m)
  {
  }

  lemma ParseUnfold<M>(apply: (M, Field, nat) -> Outcome<M>, m: M, b: seq<byte>, d: nat)
    requires b != []
    ensures ParseInto(apply, m, b, d)
         == if ReadTag(b).Bad? then Failure else AfterTag(apply, m, ReadTag(b).value, ReadTag(b).rest, d)
  {
  }

  /** The early exit on a zero or end-group tag: no caller of a message parser accepts it. */
  lemma EndTagFails<M>(apply: (M, Field, nat) -> Outcome<M>, m: M, tag: nat, b: seq<byte>, d: nat)
    requires tag == 0 || tag % 8 == 4
    ensures AfterTag(apply, m, tag, b, d) == Failure
  {
  }

  lemma AfterBytesTag<M>(apply: (M, Field, nat) -> Outcome<M>, m: M, num: nat, b: seq<byte>, d: nat)
    requires 1 <= num <= 15
    ensures AfterTag(apply, m, num * 8 + 2, b, d)
         == if ReadBytes(b).Bad? then Failure
            else AfterField(apply, m, BytesField(num, ReadBytes(b).value), ReadBytes(b).rest, d)
  {
    assert (num * 8 + 2) / 8 == num && (num * 8 + 2) % 8 == 2;
  }

  lemma AfterVarintTag<M>(apply: (M, Field, nat) -> Outcome<M>, m: M, num: nat, b: seq<byte>, d: nat)
    requires 1 <= num <= 15
    ensures AfterTag(apply, m, num * 8, b, d)
         == if ReadVarint64(b).Bad? then Failure
            else AfterField(apply, m, VarintField(num, ReadVarint64(b).value), ReadVarint64(b).rest, d)
  {
    assert num * 8 / 8 == num && num * 8 % 8 == 0;
  }

  /** Streaming: parsing `x + y` is parsing `x` and then parsing `y` into the result. */
  lemma {:induction false} ParseStream<M>(
      apply: (M, Field, nat) -> Outcome<M>, m: M, x: seq<byte>, y: seq<byte>, d: nat)
    requires ParseInto(apply, m, x, d).Success?
    ensures ParseInto(apply, m, x + y, d) == ParseInto(apply, ParseInto(apply, m, x, d).msg, y, d)
    decreases |x|
  {
    if x == [] {
      assert x + y == y;
    } else {
      ReadRecordExtends(x, y, d);
      var Got(f, rest) := ReadRecord(x, d);
      ParseStream(apply, apply(m, f, d).msg, rest, y, d);
    }
  }

  lemma {:induction false} ApplyAllAppend<M>(
      apply: (M, Field, nat) -> Outcome<M>, m: M, x: seq<Field>, y: seq<Field>, d: nat)
    ensures ApplyAll(apply, m, x + y, d)
         == match ApplyAll(apply, m, x, d)
            case Failure => Failure
            case Success(m') => ApplyAll(apply, m', y, d)
  {
    if x == [] {
      assert x + y == y;
    } else {
      assert (x + y)[1..] == x[1..] + y;
      match apply(m, x[0], d)
      case Failure =>
      case Success(m') => ApplyAllAppend(apply, m', x[1..], y, d);
    }
  }

  /** Parsing the encoding of well-formed records, whatever follows, applies those records. */
  lemma {:induction false} ParseEncoded<M>(
      apply: (M, Field, nat) -> Outcome<M>, m: M, fs: seq<Field>, rest: seq<byte>, d: nat)
    requires WfFields(fs, d)
    ensures ParseInto(apply, m, EncodeFields(fs) + rest, d)
         == match ApplyAll(apply, m, fs, d)
            case Failure => Failure
            case Success(m') => ParseInto(apply, m', rest, d)
  {
    if fs == [] {
      assert EncodeFields(fs) + rest == rest;
    } else {
      var f, tail := fs[0], EncodeFields(fs[1..]) + rest;
      Assoc3(EncodeField(f), EncodeFields(fs[1..]), rest);
      assert WfField(f, d);
      ReadRecordEncode(f, tail, d);
      match apply(m, f, d)
      case Failure =>
      case Success(m') => ParseEncoded(apply, m', fs[1..], rest, d);
    }
  }

  /** Two byte strings are one record each: `r` reads back as `f` with nothing left. */
  ghost predicate IsRecord(r: seq<byte>, f: Field, d: nat) {
    ReadRecord(r, d) == Got(f, [])
  }

  lemma ParseRecord<M>(apply: (M, Field, nat) -> Outcome<M>, m: M, r: seq<byte>, f: Field, y: seq<byte>, d: nat)
    requires IsRecord(r, f, d)
    ensures ParseInto(apply, m, r + y, d)
         == match apply(m, f, d)
            case Failure => Failure
            case Success(m') => ParseInto(apply, m', y, d)
  {
    ReadRecordExtends(r, y, d);
    assert [] + y == y;
  }

  /**
   Exchanging two adjacent records that commute on every message changes neither acceptance
   nor the result, however the records themselves were encoded.
   */
  lemma ParseSwap<M>(apply: (M, Field, nat) -> Outcome<M>, m: M, x: seq<byte>,
                     r1: seq<byte>, f1: Field, r2: seq<byte>, f2: Field, y: seq<byte>, d: nat)
    requires ParseInto(apply, m, x, d).Success?
    requires IsRecord(r1, f1, d) && IsRecord(r2, f2, d)
    requires var a := ParseInto(apply, m, x, d).msg;
             ApplyAll(apply, a, [f1, f2], d) == ApplyAll(apply, a, [f2, f1], d)
    ensures ParseInto(apply, m, x + (r1 + (r2 + y)), d) == ParseInto(apply, m, x + (r2 + (r1 + y)), d)
  {
    var a := ParseInto(apply, m, x, d).msg;
    ParseStream(apply, m, x, r1 + (r2 + y), d);
    ParseStream(apply, m, x, r2 + (r1 + y), d);
    ParseTwo(apply, a, r1, f1, r2, f2, y, d);
    ParseTwo(apply, a, r2, f2, r1, f1, y, d);
  }

  lemma ParseTwo<M>(apply: (M, Field, nat) -> Outcome<M>, m: M,
                    r1: seq<byte>, f1: Field, r2: seq<byte>, f2: Field, y: seq<byte>, d: nat)
    requires IsRecord(r1, f1, d) && IsRecord(r2, f2, d)
    ensures ParseInto(apply, m, r1 + (r2 + y), d)
         == match ApplyAll(apply, m, [f1, f2], d)
            case Failure => Failure
            case Success(m') => ParseInto(apply, m', y, d)
  {
    ParseRecord(apply, m, r1, f1, r2 + y, d);
    ApplyTwo(apply, m, f1, f2, d);
    match apply(m, f1, d)
    case Failure =>
    case Success(m') => ParseRecord(apply, m', r2, f2, y, d);
  }

  lemma ApplyOne<M>(apply: (M, Field, nat) -> Outcome<M>, m: M, f: Field, d: nat)
    ensures ApplyAll(apply, m, [f], d) == apply(m, f, d)
  {
    assert [f][1..] == [];
  }

  lemma ApplyTwo<M>(apply: (M, Field, nat) -> Outcome<M>, m: M, f1: Field, f2: Field, d: nat)
    ensures ApplyAll(apply, m, [f1, f2], d)
         == match apply(m, f1, d)
            case Failure => Failure
            case Success(m') => apply(m', f2, d)
  {
    assert [f1, f2][1..] == [f2] && [f2][1..] == [];
    match apply(m, f1, d)
    case Failure =>
    case Success(m') => ApplyOne(apply, m', f2, d);
  }
}
