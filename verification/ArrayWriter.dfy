/** The writers into a byte buffer and the size pass over unknown fields. */
module ArrayWriter {
  import opened Basics
  import opened Varint
  import opened WireFormat
  import opened Sizes

  /** `after` is `before` with `bytes` written at `p` and nothing else changed. */
  ghost predicate Written(before: seq<byte>, after: seq<byte>, p: nat, bytes: seq<byte>) {
    p + |bytes| <= |before| && after == before[..p] + bytes + before[p + |bytes|..]
  }

  lemma WrittenNothing(a: seq<byte>, p: nat)
    requires p <= |a|
    ensures Written(a, a, p, [])
  {
  }

  lemma WrittenThen(a: seq<byte>, b: seq<byte>, c: seq<byte>, p: nat, x: seq<byte>, y: seq<byte>)
    requires Written(a, b, p, x) && Written(b, c, p + |x|, y)
    ensures Written(a, c, p, x + y)
  {
    var q := p + |x|;
    assert b[..q] == a[..p] + x;
    assert b[q + |y|..] == a[q + |y|..];
  }

  lemma WrittenThree(a: seq<byte>, b: seq<byte>, c: seq<byte>, d: seq<byte>, p: nat,
                     x: seq<byte>, y: seq<byte>, z: seq<byte>)
    requires Written(a, b, p, x) && Written(b, c, p + |x|, y) && Written(c, d, p + |x| + |y|, z)
    ensures Written(a, d, p, x + y + z)
  {
    hide Written;
    WrittenThen(a, b, c, p, x, y);
    WrittenThen(a, c, d, p, x + y, z);
  }

  lemma WrittenAll(a: seq<byte>, b: seq<byte>, x: seq<byte>)
    requires Written(a, b, 0, x) && |a| == |x|
    ensures b == x
  {
  }

  lemma AppendByte(before: seq<byte>, a: seq<byte>, p: nat, bytes: seq<byte>, x: byte)
    requires Written(before, a, p, bytes) && p + |bytes| < |before|
    ensures |a| == |before| && Written(before, a[p + |bytes| := x], p, bytes + [x])
  {
  }

  lemma ReplaceLast(before: seq<byte>, t: seq<byte>, p: nat, done: seq<byte>, x: byte, y: byte)
    requires Written(before, t, p, done + [x])
    ensures |t| == |before| && p + |done| < |t| && t[p + |done|] == x
    ensures Written(before, t[p + |done| := y], p, done + [y])
  {
  }

  lemma LowBits(v: nat)
    ensures v % 256 % 128 == v % 128
  {
  }

  lemma EncodeLarge(v: nat)
    requires v >= 128
    ensures Encode(v) == [v % 128 + 128] + Encode(v / 128)
  {
  }

  /** The byte at the end of `done` gets its continuation bit, and the next byte follows it. */
  lemma WriteStep(before: seq<byte>, t: seq<byte>, p: nat, done: seq<byte>, v: nat, whole: seq<byte>)
    requires v >= 128 && done + Encode(v) == whole
    requires Written(before, t, p, done + [v % 256]) && p + |whole| <= |t|
    ensures |t| == |before| && p + |done| + 1 < |t| && t[p + |done|] % 128 == v % 128
    ensures var low := v % 128 + 128;
            && done + [low] + Encode(v / 128) == whole
            && Written(before, t[p + |done| := low][p + |done| + 1 := v / 128 % 256], p, done + [low] + [v / 128 % 256])
  {
    var low := v % 128 + 128;
    EncodeLarge(v);
    LowBits(v);
    Assoc3(done, [low], Encode(v / 128));
    hide Written, Encode;
    ReplaceLast(before, t, p, done, v % 256, low);
    AppendByte(before, t[p + |done| := low], p, done + [low], v / 128 % 256);
  }

  lemma EncodeSmall(v: nat)
    requires v < 128
    ensures Encode(v) == [v % 256]
  {
  }

  /**
   `EpsCopyOutputStream::UnsafeVarint`: each byte is written without a continuation bit, which
   is added once it is known that another byte follows.
   */
  method WriteVarint(v: nat, target: array<byte>, p: nat) returns (q: nat)
    requires p + |Encode(v)| <= target.Length
    modifies target
    ensures q == p + |Encode(v)| && Written(old(target[..]), target[..], p, Encode(v))
  {
    hide Written, Encode;
    ghost var before := target[..];
    ghost var done: seq<byte> := [];
    var value := v;
    q := p;
    WrittenNothing(before, p);
    AppendByte(before, before, p, done, value % 256);
    target[q] := value % 256;
    assert target[..] == before[q := value % 256];
    assert done + Encode(value) == Encode(v);
    while value >= 128
      invariant q == p + |done|
      invariant done + Encode(value) == Encode(v)
      invariant Written(before, target[..], p, done + [value % 256])
      decreases value
    {
      ghost var t := target[..];
      WriteStep(before, t, p, done, value, Encode(v));
      target[q] := target[q] % 128 + 128;
      ghost var low: byte := value % 128 + 128;
      ghost var u: seq<byte> := t[q := low];
      done := done + [low];
      value := value / 128;
      q := q + 1;
      target[q] := value % 256;
      assert target[..] == u[q := target[q]];
    }
    EncodeSmall(value);
    q := q + 1;
  }

  method WriteRaw(data: seq<byte>, target: array<byte>, p: nat) returns (q: nat)
    requires p + |data| <= target.Length
    modifies target
    ensures q == p + |data| && Written(old(target[..]), target[..], p, data)
  {
    forall i | 0 <= i < |data| {
      target[p + i] := data[i];
    }
    q := p + |data|;
  }

  /** `WriteString` and `WriteLengthDelim`: tag, size and bytes. */
  method WriteBytesField(num: nat, data: seq<byte>, target: array<byte>, p: nat) returns (q: nat)
    requires p + |EncodeField(BytesField(num, data))| <= target.Length
    modifies target
    ensures q == p + |EncodeField(BytesField(num, data))|
    ensures Written(old(target[..]), target[..], p, EncodeField(BytesField(num, data)))
  {
    hide Written, Encode;
    ghost var before := target[..];
    q := WriteVarint(num * 8 + 2, target, p);
    ghost var tagged := target[..];
    q := WriteVarint(|data|, target, q);
    WrittenThen(before, tagged, target[..], p, Encode(num * 8 + 2), Encode(|data|));
    ghost var sized := target[..];
    q := WriteRaw(data, target, q);
    WrittenThen(before, sized, target[..], p, Encode(num * 8 + 2) + Encode(|data|), data);
    Assoc3(Encode(num * 8 + 2), Encode(|data|), data);
  }

  method WriteVarintField(num: nat, v: nat, target: array<byte>, p: nat) returns (q: nat)
    requires p + |EncodeField(VarintField(num, v))| <= target.Length
    modifies target
    ensures q == p + |EncodeField(VarintField(num, v))|
    ensures Written(old(target[..]), target[..], p, EncodeField(VarintField(num, v)))
  {
    ghost var before := target[..];
    q := WriteVarint(num * 8, target, p);
    ghost var tagged := target[..];
    q := WriteVarint(v, target, q);
    WrittenThen(before, tagged, target[..], p, Encode(num * 8), Encode(v));
  }

  method WriteFixedField(f: Field, target: array<byte>, p: nat) returns (q: nat)
    requires f.Fixed32Field? || f.Fixed64Field?
    requires p + |EncodeField(f)| <= target.Length
    modifies target
    ensures q == p + |EncodeField(f)| && Written(old(target[..]), target[..], p, EncodeField(f))
  {
    ghost var before := target[..];
    q := WriteVarint(Tag(f), target, p);
    ghost var tagged := target[..];
    q := WriteRaw(f.fixed, target, q);
    WrittenThen(before, tagged, target[..], p, Encode(Tag(f)), f.fixed);
  }

  /** `WireFormat::InternalSerializeUnknownFieldsToArray` */
  method WriteFields(fs: seq<Field>, target: array<byte>, p: nat) returns (q: nat)
    requires p + |EncodeFields(fs)| <= target.Length
    modifies target
    ensures q == p + |EncodeFields(fs)| && Written(old(target[..]), target[..], p, EncodeFields(fs))
    decreases fs, 1
  {
    q := p;
    ghost var before := target[..];
    WrittenNothing(before, p);
    for i := 0 to |fs|
      invariant q == p + |EncodeFields(fs[..i])|
      invariant Written(before, target[..], p, EncodeFields(fs[..i]))
    {
      TakeOneMore(fs, i);
      ghost var mid := target[..];
      q := WriteField(fs[i], target, q);
      WrittenThen(before, mid, target[..], p, EncodeFields(fs[..i]), EncodeField(fs[i]));
    }
    assert fs[..|fs|] == fs;
  }

  lemma TakeOneMore(fs: seq<Field>, i: nat)
    requires i < |fs|
    ensures EncodeFields(fs[..i + 1]) == EncodeFields(fs[..i]) + EncodeField(fs[i])
    ensures |EncodeFields(fs[..i + 1])| <= |EncodeFields(fs)|
  {
    assert fs[..i + 1] == fs[..i] + [fs[i]];
    EncodeFieldsAppend(fs[..i], [fs[i]]);
    EncodeOne(fs[i]);
    assert fs == fs[..i + 1] + fs[i + 1..];
    EncodeFieldsAppend(fs[..i + 1], fs[i + 1..]);
  }

  method WriteField(f: Field, target: array<byte>, p: nat) returns (q: nat)
    requires p + |EncodeField(f)| <= target.Length
    modifies target
    ensures q == p + |EncodeField(f)| && Written(old(target[..]), target[..], p, EncodeField(f))
    decreases f, 0
  {
    match f {
      case VarintField(num, v) => q := WriteVarintField(num, v, target, p);
      case BytesField(num, data) => q := WriteBytesField(num, data, target, p);
      case GroupField(num, fields) => q := WriteGroupField(num, fields, target, p);
      case _ => q := WriteFixedField(f, target, p);
    }
  }

  method WriteGroupField(num: nat, fields: seq<Field>, target: array<byte>, p: nat) returns (q: nat)
    requires p + |EncodeField(GroupField(num, fields))| <= target.Length
    modifies target
    ensures q == p + |EncodeField(GroupField(num, fields))|
    ensures Written(old(target[..]), target[..], p, EncodeField(GroupField(num, fields)))
    decreases fields, 2
  {
    hide Written, Encode;
    var open, close := Encode(num * 8 + 3), Encode(num * 8 + 4);
    assert EncodeField(GroupField(num, fields)) == open + EncodeFields(fields) + close by {
      Assoc3(open, EncodeFields(fields), close);
    }
    hide EncodeField, EncodeFields;
    ghost var before := target[..];
    q := WriteVarint(num * 8 + 3, target, p);
    ghost var started := target[..];
    q := WriteFields(fields, target, q);
    ghost var filled := target[..];
    q := WriteVarint(num * 8 + 4, target, q);
    WrittenThree(before, started, filled, target[..], p, open, EncodeFields(fields), close);
  }

  /** `WireFormat::ComputeUnknownFieldsSize`: one pass, adding up. */
  method ComputeUnknownFieldsSize(fs: seq<Field>) returns (size: nat)
    ensures size == UnknownSize(fs)
    decreases fs
  {
    size := 0;
    for i := 0 to |fs|
      invariant size + UnknownSize(fs[i..]) == UnknownSize(fs)
    {
      match fs[i] {
        case GroupField(num, fields) =>
          var inner := ComputeUnknownFieldsSize(fields);
          size := size + VarintSize(num * 8 + 3) + inner + VarintSize(num * 8 + 4);
        case _ => size := size + FieldSize(fs[i]);
      }
      assert fs[i..][1..] == fs[i + 1..];
    }
  }
}
