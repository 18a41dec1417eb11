/**
  The wire form of `MfaKeyMetadataPlaintext`
  (rust/account-keys/src/proto/mfa_metadata.proto): a base-128 varint in field 1
  and a string in field 2, both left out when they hold the default value.
 */
module Protobuf {
  import opened Wrappers
  import opened Bytes
  import opened Utf8

  const U64_LIMIT: nat := 0x1_0000_0000_0000_0000
  const U32_LIMIT: nat := 0x1_0000_0000
  const VARINT_MAX: nat := 10

  type u64 = x: int | 0 <= x < 0x1_0000_0000_0000_0000

  datatype Message = Message(seconds: u64, name: Text)

  /** A value read from the front, and the bytes behind it. */
  datatype Read<+T> = Read(value: T, rest: Bytes)

  // ---------------------------------------------------------------------
  // Varints.
  // ---------------------------------------------------------------------

  function WriteVarint(v: nat): Bytes {
    if v < 128 then [v] else [128 + v % 128] + WriteVarint(v / 128)
  }

  /** Reads at most `left` bytes; the last one may carry a single bit, so that
      ten bytes hold 64 bits and no more. */
  function ReadVarint(b: Bytes, left: nat): (r: Option<Read<nat>>)
    ensures r.Some? ==> |r.value.rest| < |b| && r.value.value < Limit(left)
  {
    if b == [] || left == 0 || (left == 1 && b[0] > 1) then None
    else if b[0] < 128 then
      LimitGrows(left);
      Some(Read(b[0], b[1..]))
    else
      var high :- ReadVarint(b[1..], left - 1);
      Some(Read(b[0] - 128 + 128 * high.value, high.rest))
  }

  /** One more than the largest value of a varint of `left` bytes. */
  function Limit(left: nat): nat {
    if left <= 1 then 2 else 128 * Limit(left - 1)
  }

  lemma {:induction false} LimitGrows(left: nat)
    ensures 2 <= Limit(left) && (left > 1 ==> 128 < Limit(left))
  {
    if left > 1 {
      LimitGrows(left - 1);
    }
  }

  lemma LimitIsU64()
    ensures Limit(VARINT_MAX) == U64_LIMIT
  {
    assert Limit(4) == 128 * 128 * 128 * 2;
    assert Limit(7) == 128 * 128 * 128 * Limit(4);
    assert Limit(10) == 128 * 128 * 128 * Limit(7);
  }

  lemma SplitVarint(v: nat, limit: nat)
    requires v < 128 * limit
    ensures v / 128 < limit && v % 128 + 128 * (v / 128) == v
  {
  }

  lemma WriteVarintMore(low: nat, high: nat)
    requires low < 128 && 0 < high
    ensures WriteVarint(low + 128 * high) == [128 + low] + WriteVarint(high)
  {
    var v := low + 128 * high;
    assert v % 128 == low && v / 128 == high;
  }

  /** A byte with its high bit set, in front of a varint that reads back. */
  lemma ReadOfWriteMore(low: nat, high: nat, left: nat, t: Bytes)
    requires low < 128 && 0 < high && 1 < left
    requires ReadVarint(WriteVarint(high) + t, left - 1) == Some(Read(high, t))
    ensures ReadVarint(WriteVarint(low + 128 * high) + t, left) == Some(Read(low + 128 * high, t))
  {
    WriteVarintMore(low, high);
    var b := [128 + low] + WriteVarint(high) + t;
    assert b[1..] == WriteVarint(high) + t;
  }

  lemma {:induction false} ReadOfWriteVarint(v: nat, left: nat, t: Bytes)
    requires v < Limit(left) && 0 < left
    ensures ReadVarint(WriteVarint(v) + t, left) == Some(Read(v, t))
    ensures |WriteVarint(v)| <= left
    decreases v
  {
    if v < 128 {
      assert ([v] + t)[1..] == t;
    } else {
      SplitVarint(v, Limit(left - 1));
      var low, high := v % 128, v / 128;
      ReadOfWriteVarint(high, left - 1, t);
      ReadOfWriteMore(low, high, left, t);
      WriteVarintMore(low, high);
    }
  }

  lemma {:induction false} ReadVarintExtends(b: Bytes, left: nat, t: Bytes)
    requires ReadVarint(b, left).Some?
    ensures var r := ReadVarint(b, left).value;
            ReadVarint(b + t, left) == Some(Read(r.value, r.rest + t))
    decreases left
  {
    assert (b + t)[1..] == b[1..] + t;
    if b[0] >= 128 {
      ReadVarintExtends(b[1..], left - 1, t);
    }
  }

  /** Seven bits from each byte, the lowest first. */
  function Base128(v: Bytes): nat {
    if v == [] then 0 else v[0] % 128 + 128 * Base128(v[1..])
  }

  /** One varint: every byte but the last has its high bit set. */
  ghost predicate Varint(v: Bytes) {
    v != [] && v[|v| - 1] < 128 && forall i :: 0 <= i < |v| - 1 ==> v[i] >= 128
  }

  /** Any varint, shortest or not, reads as its digits if it fits into `left`
      bytes of which the last holds one bit, and is refused otherwise. */
  lemma {:induction false} ReadVarintExact(v: Bytes, left: nat, t: Bytes)
    requires Varint(v)
    ensures ReadVarint(v + t, left)
         == if |v| < left || (|v| == left && v[|v| - 1] <= 1) then Some(Read(Base128(v), t)) else None
    decreases |v|
  {
    assert (v + t)[1..] == v[1..] + t && (v + t)[0] == v[0];
    if |v| == 1 {
      assert v[1..] == [] && [] + t == t;
    } else if left > 0 {
      assert Varint(v[1..]);
      ReadVarintExact(v[1..], left - 1, t);
      Base128More(v);
    }
  }

  lemma Base128More(v: Bytes)
    requires v != [] && v[0] >= 128
    ensures Base128(v) == v[0] - 128 + 128 * Base128(v[1..])
  {
  }

  /** Bytes that never end a varint are refused. */
  lemma {:induction false} UnendedVarintRejected(b: Bytes, left: nat)
    requires forall i :: 0 <= i < |b| ==> b[i] >= 128
    ensures ReadVarint(b, left) == None
    decreases left
  {
    if b != [] && left > 0 {
      UnendedVarintRejected(b[1..], left - 1);
    }
  }

  /** What is written is the one varint of that value without needless digits. */
  lemma {:induction false} WriteVarintExact(v: nat)
    ensures Varint(WriteVarint(v)) && Base128(WriteVarint(v)) == v
    ensures |WriteVarint(v)| > 1 ==> WriteVarint(v)[|WriteVarint(v)| - 1] != 0
    decreases v
  {
    if v >= 128 {
      var high := WriteVarint(v / 128);
      WriteVarintExact(v / 128);
      var w := [128 + v % 128] + high;
      assert w[1..] == high && w[|w| - 1] == high[|high| - 1];
      assert |high| == 1 ==> high[0] == v / 128;
    }
  }

  /** Tags and lengths are varints of 32 bits. */
  function ReadVarint32(b: Bytes): (r: Option<Read<nat>>)
    ensures r.Some? ==> |r.value.rest| < |b|
  {
    var v :- ReadVarint(b, VARINT_MAX);
    if v.value < U32_LIMIT then Some(v) else None
  }

  /** A length and that many bytes. */
  function ReadBlock(b: Bytes): (r: Option<Read<Bytes>>)
    ensures r.Some? ==> |r.value.rest| < |b|
  {
    var len :- ReadVarint32(b);
    if len.value <= |len.rest| then Some(Read(len.rest[..len.value], len.rest[len.value..])) else None
  }

  lemma ReadBlockExtends(b: Bytes, t: Bytes)
    requires ReadBlock(b).Some?
    ensures var r := ReadBlock(b).value;
            ReadBlock(b + t) == Some(Read(r.value, r.rest + t))
  {
    ReadVarintExtends(b, VARINT_MAX, t);
    var len := ReadVarint32(b).value;
    assert (len.rest + t)[..len.value] == len.rest[..len.value];
    assert (len.rest + t)[len.value..] == len.rest[len.value..] + t;
  }

  // ---------------------------------------------------------------------
  // Fields.
  // ---------------------------------------------------------------------

  const TAG_SECONDS := 8
  const TAG_NAME := 18

  function WriteSeconds(seconds: u64): Bytes {
    if seconds == 0 then [] else [TAG_SECONDS] + WriteVarint(seconds)
  }

  function WriteName(name: Text): Bytes {
    if name == [] then [] else [TAG_NAME] + WriteVarint(|Encode(name)|) + Encode(name)
  }

  function Write(m: Message): Bytes {
    WriteSeconds(m.seconds) + WriteName(m.name)
  }

  /** Steps over the content of a field nobody asked for. */
  function SkipField(wireType: nat, b: Bytes): (r: Option<Bytes>)
    ensures r.Some? ==> |r.value| <= |b|
    decreases |b|, 1
  {
    match wireType
    case 0 => var v :- ReadVarint(b, VARINT_MAX); Some(v.rest)
    case 1 => if |b| >= 8 then Some(b[8..]) else None
    case 2 => var v :- ReadBlock(b); Some(v.rest)
    case 3 => SkipGroup(b)
    case 5 => if |b| >= 4 then Some(b[4..]) else None
    case _ => None
  }

  /** Steps to behind the end marker of a group. */
  function SkipGroup(b: Bytes): (r: Option<Bytes>)
    ensures r.Some? ==> |r.value| < |b|
    decreases |b|, 0
  {
    var tag :- ReadVarint32(b);
    if tag.value / 8 == 0 then None
    else if tag.value % 8 == 4 then Some(tag.rest)
    else
      var rest :- SkipField(tag.value % 8, tag.rest);
      SkipGroup(rest)
  }

  lemma {:induction false} SkipFieldExtends(wireType: nat, b: Bytes, t: Bytes)
    requires SkipField(wireType, b).Some?
    ensures SkipField(wireType, b + t) == Some(SkipField(wireType, b).value + t)
    decreases |b|, 1
  {
    match wireType
    case 0 => ReadVarintExtends(b, VARINT_MAX, t);
    case 1 => assert (b + t)[8..] == b[8..] + t;
    case 2 => ReadBlockExtends(b, t);
    case 3 => SkipGroupExtends(b, t);
    case 5 => assert (b + t)[4..] == b[4..] + t;
    case _ => assert false;
  }

  lemma {:induction false} SkipGroupExtends(b: Bytes, t: Bytes)
    requires SkipGroup(b).Some?
    ensures SkipGroup(b + t) == Some(SkipGroup(b).value + t)
    decreases |b|, 0
  {
    ReadVarintExtends(b, VARINT_MAX, t);
    var tag := ReadVarint32(b).value;
    if tag.value % 8 != 4 {
      SkipFieldExtends(tag.value % 8, tag.rest, t);
      SkipGroupExtends(SkipField(tag.value % 8, tag.rest).value, t);
    }
  }

  /** One field: updates the message, or fails. */
  function MergeField(m: Message, b: Bytes): (r: Option<Read<Message>>)
    ensures r.Some? ==> |r.value.rest| < |b|
  {
    var tag :- ReadVarint32(b);
    if tag.value == TAG_SECONDS then
      var v :- ReadVarint(tag.rest, VARINT_MAX);
      LimitIsU64();
      Some(Read(m.(seconds := v.value), v.rest))
    else if tag.value == TAG_NAME then
      var v :- ReadBlock(tag.rest);
      var name :- Decode(v.value);
      Some(Read(m.(name := name), v.rest))
    else if tag.value / 8 == 0 then None
    else
      var rest :- SkipField(tag.value % 8, tag.rest);
      Some(Read(m, rest))
  }

  /** Fields in any order, the last one of a kind counting. */
  function Merge(m: Message, b: Bytes): Option<Message>
    decreases |b|
  {
    if b == [] then Some(m)
    else
      var next :- MergeField(m, b);
      Merge(next.value, next.rest)
  }

  function Parse(b: Bytes): Option<Message> {
    Merge(Message(0, []), b)
  }

  // ---------------------------------------------------------------------
  // Laws.
  // ---------------------------------------------------------------------

  lemma MergeFieldExtends(m: Message, b: Bytes, t: Bytes)
    requires MergeField(m, b).Some?
    ensures var r := MergeField(m, b).value;
            MergeField(m, b + t) == Some(Read(r.value, r.rest + t))
  {
    ReadVarintExtends(b, VARINT_MAX, t);
    var tag := ReadVarint32(b).value;
    if tag.value == TAG_SECONDS {
      ReadVarintExtends(tag.rest, VARINT_MAX, t);
    } else if tag.value == TAG_NAME {
      ReadBlockExtends(tag.rest, t);
    } else {
      SkipFieldExtends(tag.value % 8, tag.rest, t);
    }
  }

  /** Reading two encodings one after the other merges the second into what the
      first gave. */
  lemma {:induction false} MergeAppend(m: Message, a: Bytes, b: Bytes)
    requires Merge(m, a).Some?
    ensures Merge(m, a + b) == Merge(Merge(m, a).value, b)
    decreases |a|
  {
    if a == [] {
      assert a + b == b;
    } else {
      MergeFieldExtends(m, a, b);
      var r := MergeField(m, a).value;
      MergeAppend(r.value, r.rest, b);
    }
  }

  lemma MergeSeconds(m: Message, seconds: u64)
    ensures Merge(m, WriteSeconds(seconds)) == Some(if seconds == 0 then m else m.(seconds := seconds))
  {
    if seconds != 0 {
      var b := WriteSeconds(seconds);
      ReadTag(TAG_SECONDS, WriteVarint(seconds));
      LimitIsU64();
      ReadOfWriteVarint(seconds, VARINT_MAX, []);
      assert WriteVarint(seconds) + [] == WriteVarint(seconds);
      assert MergeField(m, b) == Some(Read(m.(seconds := seconds), []));
    }
  }

  lemma ReadTag(tag: nat, rest: Bytes)
    requires tag < 128
    ensures ReadVarint32([tag] + rest) == Some(Read(tag, rest))
  {
    assert ([tag] + rest)[1..] == rest;
  }

  lemma ReadBlockOfWrite(x: Bytes)
    requires |x| < U32_LIMIT
    ensures ReadBlock(WriteVarint(|x|) + x) == Some(Read(x, []))
  {
    LimitIsU64();
    ReadOfWriteVarint(|x|, VARINT_MAX, x);
    assert x[..|x|] == x && x[|x|..] == [];
  }

  lemma MergeName(m: Message, name: Text)
    requires |Encode(name)| < U32_LIMIT
    ensures Merge(m, WriteName(name)) == Some(if name == [] then m else m.(name := name))
  {
    if name != [] {
      var x := Encode(name);
      var b := WriteName(name);
      assert b == [TAG_NAME] + (WriteVarint(|x|) + x);
      ReadTag(TAG_NAME, WriteVarint(|x|) + x);
      ReadBlockOfWrite(x);
      DecodeOfEncode(name);
      assert MergeField(m, b) == Some(Read(m.(name := name), []));
    }
  }

  /** Fields written by `next` replace those of `m`; fields it leaves out stay. */
  function Overlay(m: Message, next: Message): Message {
    Message(if next.seconds == 0 then m.seconds else next.seconds,
            if next.name == [] then m.name else next.name)
  }

  lemma MergeWritten(m: Message, next: Message)
    requires |Encode(next.name)| < U32_LIMIT
    ensures Merge(m, Write(next)) == Some(Overlay(m, next))
  {
    MergeSeconds(m, next.seconds);
    MergeAppend(m, WriteSeconds(next.seconds), WriteName(next.name));
    MergeName(Merge(m, WriteSeconds(next.seconds)).value, next.name);
  }

  /** Every message reads back as it was written. */
  lemma ParseOfWrite(m: Message)
    requires |Encode(m.name)| < U32_LIMIT
    ensures Parse(Write(m)) == Some(m)
  {
    MergeWritten(Message(0, []), m);
  }

  /** Concatenated encodings merge, whatever the first one was. */
  lemma ParseMerges(b: Bytes, next: Message)
    requires Parse(b).Some? && |Encode(next.name)| < U32_LIMIT
    ensures Parse(b + Write(next)) == Some(Overlay(Parse(b).value, next))
  {
    MergeAppend(Message(0, []), b, Write(next));
    MergeWritten(Parse(b).value, next);
  }

  /** The order of the fields does not matter. */
  lemma ParseSwapped(m: Message)
    requires |Encode(m.name)| < U32_LIMIT
    ensures Parse(WriteName(m.name) + WriteSeconds(m.seconds)) == Parse(Write(m))
  {
    var zero := Message(0, []);
    ParseOfWrite(m);
    MergeName(zero, m.name);
    MergeAppend(zero, WriteName(m.name), WriteSeconds(m.seconds));
    MergeSeconds(Merge(zero, WriteName(m.name)).value, m.seconds);
  }

  /** A complete field with any other tag changes nothing. */
  lemma UnknownFieldIgnored(b: Bytes, tag: nat, field: Bytes)
    requires Parse(b).Some? && field != []
    requires ReadVarint32(field).Some? && ReadVarint32(field).value.value == tag
    requires tag != TAG_SECONDS && tag != TAG_NAME && tag / 8 != 0
    requires SkipField(tag % 8, ReadVarint32(field).value.rest) == Some([])
    ensures Parse(b + field) == Parse(b)
  {
    MergeAppend(Message(0, []), b, field);
    assert MergeField(Parse(b).value, field) == Some(Read(Parse(b).value, []));
  }

  // ---------------------------------------------------------------------
  // Fields nobody asked for, written out.
  // ---------------------------------------------------------------------

  datatype Field =
    | VarintField(number: nat, value: u64)
    | Fixed64Field(number: nat, bytes: Bytes)
    | BlockField(number: nat, bytes: Bytes)
    | GroupField(number: nat, fields: Fields)
    | Fixed32Field(number: nat, bytes: Bytes)

  datatype Fields = NoFields | AndField(first: Field, rest: Fields)

  function WireType(f: Field): nat {
    match f
    case VarintField(_, _) => 0
    case Fixed64Field(_, _) => 1
    case BlockField(_, _) => 2
    case GroupField(_, _) => 3
    case Fixed32Field(_, _) => 5
  }

  predicate ValidNumber(number: nat) {
    0 < number < 0x2000_0000
  }

  predicate ValidField(f: Field) {
    && ValidNumber(f.number)
    && match f
       case VarintField(_, _) => true
       case Fixed64Field(_, x) => |x| == 8
       case BlockField(_, x) => |x| < U32_LIMIT
       case GroupField(_, fields) => ValidFields(fields)
       case Fixed32Field(_, x) => |x| == 4
  }

  predicate ValidFields(fs: Fields) {
    fs.NoFields? || (ValidField(fs.first) && ValidFields(fs.rest))
  }

  function WriteTag(number: nat, wireType: nat): Bytes {
    WriteVarint(8 * number + wireType)
  }

  /** Behind the tag: eight or four bytes as they are, a block behind its length,
      and a group up to a tag of wire type 4. */
  function WriteContent(f: Field): Bytes
    decreases f, 0
  {
    match f
    case VarintField(_, value) => WriteVarint(value)
    case Fixed64Field(_, x) => x
    case BlockField(_, x) => WriteVarint(|x|) + x
    case GroupField(number, fields) => WriteFields(fields) + WriteTag(number, 4)
    case Fixed32Field(_, x) => x
  }

  function WriteFields(fs: Fields): Bytes {
    match fs
    case NoFields => []
    case AndField(first, rest) => WriteField(first) + WriteFields(rest)
  }

  function WriteField(f: Field): Bytes
    decreases f, 1
  {
    WriteTag(f.number, WireType(f)) + WriteContent(f)
  }

  lemma ReadWrittenTag(number: nat, wireType: nat, t: Bytes)
    requires ValidNumber(number) && wireType < 8
    ensures var tag := 8 * number + wireType;
            ReadVarint32(WriteTag(number, wireType) + t) == Some(Read(tag, t))
            && tag / 8 == number && tag % 8 == wireType
  {
    LimitIsU64();
    ReadOfWriteVarint(8 * number + wireType, VARINT_MAX, t);
  }

  lemma {:induction false} SkipOfContent(f: Field, t: Bytes)
    requires ValidField(f)
    ensures SkipField(WireType(f), WriteContent(f) + t) == Some(t)
    decreases f, 0
  {
    match f
    case VarintField(_, value) =>
      LimitIsU64();
      ReadOfWriteVarint(value, VARINT_MAX, t);
    case Fixed64Field(_, x) => assert (x + t)[8..] == t;
    case BlockField(_, x) =>
      ReadBlockOfWrite(x);
      ReadBlockExtends(WriteVarint(|x|) + x, t);
      assert [] + t == t;
    case GroupField(number, fields) => SkipOfGroup(number, fields, t);
    case Fixed32Field(_, x) => assert (x + t)[4..] == t;
  }

  lemma {:induction false} SkipOfGroup(number: nat, fs: Fields, t: Bytes)
    requires ValidNumber(number) && ValidFields(fs)
    ensures SkipGroup(WriteFields(fs) + WriteTag(number, 4) + t) == Some(t)
    decreases fs
  {
    var end := WriteTag(number, 4);
    match fs
    case NoFields =>
      assert [] + end + t == end + t;
      ReadWrittenTag(number, 4, t);
    case AndField(first, rest) =>
      var more := WriteFields(rest) + end + t;
      SkipGroupStep(first, more);
      SkipOfGroup(number, rest, t);
      FlattenFields(first, rest, end, t);
  }

  lemma FlattenFields(first: Field, rest: Fields, end: Bytes, t: Bytes)
    ensures WriteFields(AndField(first, rest)) + end + t == WriteField(first) + (WriteFields(rest) + end + t)
  {
  }

  lemma {:induction false} SkipGroupStep(f: Field, more: Bytes)
    requires ValidField(f)
    ensures SkipGroup(WriteField(f) + more) == SkipGroup(more)
    decreases f, 1
  {
    ReadFieldTag(f, more);
    SkipOfContent(f, more);
    SkipGroupUnfold(WriteField(f) + more, 8 * f.number + WireType(f), WriteContent(f) + more, more);
  }

  lemma ReadFieldTag(f: Field, more: Bytes)
    requires ValidNumber(f.number)
    ensures var tag := 8 * f.number + WireType(f);
            ReadVarint32(WriteField(f) + more) == Some(Read(tag, WriteContent(f) + more))
            && tag / 8 == f.number && tag % 8 == WireType(f)
  {
    var content := WriteContent(f) + more;
    assert WriteField(f) + more == WriteTag(f.number, WireType(f)) + content;
    ReadWrittenTag(f.number, WireType(f), content);
  }

  lemma SkipGroupUnfold(b: Bytes, tag: nat, content: Bytes, more: Bytes)
    requires ReadVarint32(b) == Some(Read(tag, content)) && tag / 8 != 0 && tag % 8 != 4
    requires SkipField(tag % 8, content) == Some(more)
    ensures SkipGroup(b) == SkipGroup(more)
  {
  }

  lemma ParseThen(a: Bytes, b: Bytes)
    requires Parse(a).Some?
    ensures Parse(a + b) == Merge(Parse(a).value, b)
  {
    MergeAppend(Message(0, []), a, b);
  }

  lemma MergeSkips(m: Message, f: Field, c: Bytes)
    requires ValidField(f)
    requires 8 * f.number + WireType(f) != TAG_SECONDS && 8 * f.number + WireType(f) != TAG_NAME
    ensures MergeField(m, WriteField(f) + c) == Some(Read(m, c))
  {
    ReadFieldTag(f, c);
    SkipOfContent(f, c);
  }

  /** A field of any wire type with another tag, groups nested to any depth
      included, changes nothing wherever it stands. */
  lemma UnknownFieldSkipped(a: Bytes, f: Field, c: Bytes)
    requires Parse(a).Some? && ValidField(f)
    requires 8 * f.number + WireType(f) != TAG_SECONDS && 8 * f.number + WireType(f) != TAG_NAME
    ensures Parse(a + WriteField(f) + c) == Parse(a + c)
  {
    assert a + WriteField(f) + c == a + (WriteField(f) + c);
    ParseThen(a, WriteField(f) + c);
    ParseThen(a, c);
    MergeSkips(Parse(a).value, f, c);
  }

  lemma MergeBadTag(m: Message, tag: u64, c: Bytes)
    requires tag >= U32_LIMIT || tag / 8 == 0 || tag % 8 in {4, 6, 7}
    ensures MergeField(m, WriteVarint(tag) + c) == None
  {
    LimitIsU64();
    ReadOfWriteVarint(tag, VARINT_MAX, c);
  }

  /** A tag over 32 bits, with field number zero, or with a wire type that starts
      no field makes the whole message fail. */
  lemma BadTagRejected(a: Bytes, tag: u64, c: Bytes)
    requires Parse(a).Some? && (tag >= U32_LIMIT || tag / 8 == 0 || tag % 8 in {4, 6, 7})
    ensures Parse(a + WriteVarint(tag) + c) == None
  {
    assert a + WriteVarint(tag) + c == a + (WriteVarint(tag) + c);
    ParseThen(a, WriteVarint(tag) + c);
    MergeBadTag(Parse(a).value, tag, c);
  }

  lemma MergeCutShort(m: Message, number: nat, wireType: nat, x: Bytes)
    requires ValidNumber(number) && wireType in {1, 2, 5} && SkipField(wireType, x) == None
    ensures MergeField(m, WriteTag(number, wireType) + x) == None
  {
    ReadWrittenTag(number, wireType, x);
  }

  lemma ParseCutShort(a: Bytes, number: nat, wireType: nat, x: Bytes)
    requires Parse(a).Some?
    requires ValidNumber(number) && wireType in {1, 2, 5} && SkipField(wireType, x) == None
    ensures Parse(a + WriteTag(number, wireType) + x) == None
  {
    var field := WriteTag(number, wireType) + x;
    assert a + WriteTag(number, wireType) + x == a + field;
    ParseThen(a, field);
    MergeCutShort(Parse(a).value, number, wireType, x);
  }

  /** A field of four bytes, of eight bytes, or of `len` bytes that is cut short
      makes the whole message fail. */
  lemma CutShortRejected(a: Bytes, number: nat, x: Bytes, len: nat)
    requires Parse(a).Some? && ValidNumber(number)
    ensures |x| < 4 ==> Parse(a + WriteTag(number, 5) + x) == None
    ensures |x| < 8 ==> Parse(a + WriteTag(number, 1) + x) == None
    ensures |x| < len < U32_LIMIT ==> Parse(a + WriteTag(number, 2) + (WriteVarint(len) + x)) == None
  {
    if |x| < 4 {
      ParseCutShort(a, number, 5, x);
    }
    if |x| < 8 {
      ParseCutShort(a, number, 1, x);
    }
    if |x| < len < U32_LIMIT {
      LimitIsU64();
      ReadOfWriteVarint(len, VARINT_MAX, x);
      ParseCutShort(a, number, 2, WriteVarint(len) + x);
    }
  }

  /** The bytes of one message. */
  lemma WriteExample()
    ensures Write(Message(300, [0x61, 0xE9])) == [0x08, 0xAC, 0x02, 0x12, 0x03, 0x61, 0xC3, 0xA9]
  {
    assert WriteVarint(300) == [0xAC] + WriteVarint(2);
    var name: Text := [0x61, 0xE9];
    assert name[1..] == [0xE9] && name[1..][1..] == [];
    assert Encode(name[1..]) == [0xC3, 0xA9] + Encode([]);
    assert Encode(name) == [0x61] + [0xC3, 0xA9];
  }

  /** A name that is not UTF-8 does not parse. */
  lemma InvalidNameRejected(m: Message, x: Bytes)
    requires |x| < U32_LIMIT && Decode(x).None?
    ensures Merge(m, [TAG_NAME] + (WriteVarint(|x|) + x)) == None
  {
    ReadTag(TAG_NAME, WriteVarint(|x|) + x);
    ReadBlockOfWrite(x);
  }

  /** Nine full bytes and a tenth with two bits do not fit. */
  lemma TooManyBits()
    ensures Parse([0x08, 0xFF, 0xFF, 0xFF, 0xFF, 0xFF, 0xFF, 0xFF, 0xFF, 0xFF, 0x02]) == None
  {
    var ones := [0xFF, 0xFF, 0xFF, 0xFF, 0xFF, 0xFF, 0xFF, 0xFF, 0xFF];
    assert [0x08, 0xFF, 0xFF, 0xFF, 0xFF, 0xFF, 0xFF, 0xFF, 0xFF, 0xFF, 0x02] == [0x08] + (ones + [0x02]);
    ReadTag(0x08, ones + [0x02]);
    Overflow(ones, 0x02);
  }

  lemma {:induction false} Overflow(high: Bytes, last: byte)
    requires forall i :: 0 <= i < |high| ==> high[i] >= 128
    requires last > 1
    ensures ReadVarint(high + [last], |high| + 1) == None
    decreases |high|
  {
    if high != [] {
      assert (high + [last])[1..] == high[1..] + [last];
      Overflow(high[1..], last);
    }
  }
}
