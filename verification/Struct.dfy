/** Packed little-endian records, as C's packed structures and the formats of Python's struct module lay them
    out: the fields one behind the other, each number with its least significant byte first. */
module Struct {
  import opened Bytes

  /** The bytes of an ASCII text. */
  function Chars(text: string): seq<byte>
    requires forall i :: 0 <= i < |text| ==> text[i] < 128 as char
  {
    seq(|text|, i requires 0 <= i < |text| => text[i] as int)
  }

  /** A number of so many bytes, or bytes as they are. */
  datatype Field = Number(width: nat, value: nat) | Raw(bytes: seq<byte>)

  function Width(f: Field): nat { if f.Number? then f.width else |f.bytes| }

  /** The number whose digits to the base 256 these are, from the lowest on. */
  function Value(b: seq<byte>): nat {
    if b == [] then 0 else (b[0] as nat) + 256 * Value(b[1..])
  }

  predicate Holds(b: seq<byte>, f: Field) {
    match f
    case Number(width, value) => |b| == width && Value(b) == value
    case Raw(bytes) => b == bytes
  }

  /** `b` holds these fields, one behind the other, and nothing else. */
  predicate Record(b: seq<byte>, fields: seq<Field>) {
    if fields == [] then b == []
    else
      var w := Width(fields[0]);
      w <= |b| && Holds(b[..w], fields[0]) && Record(b[w..], fields[1..])
  }

  lemma RecordEnd(b: seq<byte>, fields: seq<Field>)
    ensures Record(b[|b|..], fields[|fields|..])
  {
  }

  /** Field `k` stands at `at`, in front of the fields behind it. */
  lemma RecordAt(b: seq<byte>, fields: seq<Field>, k: nat, at: nat, next: nat)
    requires k < |fields| && at <= next <= |b| && next - at == Width(fields[k])
    requires Holds(b[at..next], fields[k]) && Record(b[next..], fields[k + 1..])
    ensures Record(b[at..], fields[k..])
  {
    hide Holds;
    var rest, left := fields[k..], b[at..];
    assert rest[0] == fields[k] && rest[1..] == fields[k + 1..];
    assert left[..next - at] == b[at..next] && left[next - at..] == b[next..];
  }

  lemma ValueOne(b: seq<byte>)
    requires b != []
    ensures Value(b) == (b[0] as nat) + 256 * Value(b[1..])
  {
  }

  lemma Value16(b: seq<byte>)
    requires |b| == 2
    ensures Value(b) == U16(b)
  {
    ValueOne(b);
    ValueOne(b[1..]);
  }

  lemma Value32(b: seq<byte>)
    requires |b| == 4
    ensures Value(b) == U32(b)
  {
    Value16(b[2..]);
    ValueOne(b);
    ValueOne(b[1..]);
    assert b[1..][1..] == b[2..];
  }

  lemma Value64(b: seq<byte>)
    requires |b| == 8
    ensures Value(b) == U64(b)
  {
    Value32(b[4..]);
    ValueOne(b);
    ValueOne(b[1..]);
    ValueOne(b[2..]);
    ValueOne(b[3..]);
    assert b[1..][1..] == b[2..] && b[2..][1..] == b[3..] && b[3..][1..] == b[4..];
  }

  lemma AtByte(b: seq<byte>, fields: seq<Field>, k: nat, at: nat, next: nat)
    requires k < |fields| && at + 1 == next <= |b| && fields[k] == Number(1, b[at] as nat)
    requires Record(b[next..], fields[k + 1..])
    ensures Record(b[at..], fields[k..])
  {
    ValueOne(b[at..next]);
    RecordAt(b, fields, k, at, next);
  }

  lemma At16(b: seq<byte>, fields: seq<Field>, k: nat, at: nat, next: nat)
    requires k < |fields| && at + 2 == next <= |b| && fields[k] == Number(2, U16(b[at..next]))
    requires Record(b[next..], fields[k + 1..])
    ensures Record(b[at..], fields[k..])
  {
    Value16(b[at..next]);
    RecordAt(b, fields, k, at, next);
  }

  lemma At32(b: seq<byte>, fields: seq<Field>, k: nat, at: nat, next: nat)
    requires k < |fields| && at + 4 == next <= |b| && fields[k] == Number(4, U32(b[at..next]))
    requires Record(b[next..], fields[k + 1..])
    ensures Record(b[at..], fields[k..])
  {
    Value32(b[at..next]);
    RecordAt(b, fields, k, at, next);
  }

  lemma At64(b: seq<byte>, fields: seq<Field>, k: nat, at: nat, next: nat)
    requires k < |fields| && at + 8 == next <= |b| && fields[k] == Number(8, U64(b[at..next]))
    requires Record(b[next..], fields[k + 1..])
    ensures Record(b[at..], fields[k..])
  {
    Value64(b[at..next]);
    RecordAt(b, fields, k, at, next);
  }

  lemma AtRaw(b: seq<byte>, fields: seq<Field>, k: nat, at: nat, next: nat)
    requires k < |fields| && at <= next <= |b| && fields[k] == Raw(b[at..next])
    requires Record(b[next..], fields[k + 1..])
    ensures Record(b[at..], fields[k..])
  {
    RecordAt(b, fields, k, at, next);
  }
}
