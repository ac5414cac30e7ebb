/** The writer and the reader of packets (patcher/dialogs/protocol.h): 32-bit numbers, and
    strings with their length before them, one after the other. */
module Packets {
  import opened Bytes
  import opened Sequences

  const CAPACITY: nat := 512 * 1024
  const LONGEST: nat := 32767
  const NUMBER_LIMIT: nat := 0x1_0000_0000

  type Text = seq<Wchar>

  datatype Item = Num(n: nat) | Str(s: Text)

  function ItemBytes(item: Item): seq<Byte> {
    match item
    case Num(n) => Little(n, 4)
    case Str(s) => Little(|s|, 4) + WideBytes(s)
  }

  function PacketBytes(items: seq<Item>): seq<Byte> {
    if items == [] then [] else ItemBytes(items[0]) + PacketBytes(items[1..])
  }

  /** What the writer can write. */
  predicate Writable(item: Item) {
    match item
    case Num(n) => n < NUMBER_LIMIT
    case Str(s) => |s| <= LONGEST
  }

  /** What the reader accepts. */
  predicate Readable(item: Item) {
    Writable(item) && (item.Str? ==> 0 !in item.s)
  }

  predicate AllWritable(items: seq<Item>) {
    forall i :: 0 <= i < |items| ==> Writable(items[i])
  }

  predicate AllReadable(items: seq<Item>) {
    forall i :: 0 <= i < |items| ==> Readable(items[i])
  }

  lemma {:induction false} PacketGrows(items: seq<Item>, item: Item)
    ensures PacketBytes(items + [item]) == PacketBytes(items) + ItemBytes(item)
  {
    hide ItemBytes;
    if items == [] {
      assert [] + [item] == [item];
    } else {
      assert (items + [item])[1..] == items[1..] + [item];
      PacketGrows(items[1..], item);
      Assoc(ItemBytes(items[0]), PacketBytes(items[1..]), ItemBytes(item));
    }
  }

  // ----- the writer -----------------------------------------------------------

  class Writer {
    var data: seq<Byte>
    /** Everything that is to be written, how much of it has been, and what is left. */
    ghost const plan: seq<Item>
    ghost var written: seq<Item>
    ghost var todo: seq<Item>

    ghost predicate Valid()
      reads this
    {
      && data == PacketBytes(written) && |data| <= CAPACITY
      && written + todo == plan
      && (AllWritable(plan) && |PacketBytes(plan)| <= CAPACITY ==> AllWritable(todo) && |data| + |PacketBytes(todo)| <= CAPACITY)
      && AllWritable(written)
    }

    ghost predicate Possible()
      reads this
    {
      AllWritable(plan) && |PacketBytes(plan)| <= CAPACITY
    }

    constructor (ghost plan: seq<Item>)
      ensures Valid() && this.plan == plan && written == [] && todo == plan
    {
      data := [];
      this.plan, written, todo := plan, [], plan;
    }

    /** One number; it fails only if the whole plan cannot be written. */
    method Number(n: nat) returns (ok: bool)
      requires Valid() && n < NUMBER_LIMIT && todo != [] && todo[0] == Num(n)
      modifies this
      ensures Possible() ==> ok
      ensures ok ==> Valid() && todo == old(todo)[1..]
    {
      hide PacketBytes, AllWritable;
      if |data| + 4 > CAPACITY {
        Fails(todo);
        return false;
      }
      Advance(data, written, todo);
      data := data + Little(n, 4);
      written, todo := written + [Num(n)], todo[1..];
      ok := true;
    }

    method String(s: Text) returns (ok: bool)
      requires Valid() && todo != [] && todo[0] == Str(s)
      modifies this
      ensures Possible() ==> ok
      ensures ok ==> Valid() && todo == old(todo)[1..]
    {
      hide PacketBytes, AllWritable;
      if |s| > LONGEST || |data| + 4 + |s| * 2 > CAPACITY {
        Fails(todo);
        return false;
      }
      Advance(data, written, todo);
      data := data + Little(|s|, 4);
      data := data + WideBytes(s);
      Assoc(old(data), Little(|s|, 4), WideBytes(s));
      written, todo := written + [Str(s)], todo[1..];
      ok := true;
    }
  }

  lemma Fails(todo: seq<Item>)
    requires todo != []
    ensures |PacketBytes(todo)| >= |ItemBytes(todo[0])| && (AllWritable(todo) ==> Writable(todo[0]))
  {
    hide ItemBytes, Writable;
  }

  lemma Advance(data: seq<Byte>, written: seq<Item>, todo: seq<Item>)
    requires todo != [] && data == PacketBytes(written)
    ensures data + ItemBytes(todo[0]) == PacketBytes(written + [todo[0]])
    ensures |PacketBytes(todo)| == |ItemBytes(todo[0])| + |PacketBytes(todo[1..])|
    ensures AllWritable(todo) ==> AllWritable(todo[1..])
    ensures AllWritable(written) && Writable(todo[0]) ==> AllWritable(written + [todo[0]])
    ensures written + todo == (written + [todo[0]]) + todo[1..]
  {
    hide ItemBytes, Writable;
    PacketGrows(written, todo[0]);
  }

  // ----- the reader -----------------------------------------------------------

  lemma SeenGrows(data: seq<Byte>, pos: nat, seen: seq<Item>, item: Item)
    requires pos + |ItemBytes(item)| <= |data| && data[..pos] == PacketBytes(seen)
    requires data[pos..pos + |ItemBytes(item)|] == ItemBytes(item)
    ensures data[..pos + |ItemBytes(item)|] == PacketBytes(seen + [item])
    ensures AllReadable(seen) && Readable(item) ==> AllReadable(seen + [item])
  {
    hide ItemBytes, PacketBytes, Readable;
    PacketGrows(seen, item);
    assert data[..pos + |ItemBytes(item)|] == data[..pos] + data[pos..pos + |ItemBytes(item)|];
  }

  /** The next item of a packet stands at the front of its bytes. */
  lemma TodoStarts(data: seq<Byte>, pos: nat, todo: seq<Item>)
    requires pos <= |data| && data[pos..] == PacketBytes(todo) && todo != []
    ensures pos + |ItemBytes(todo[0])| <= |data| && data[pos..pos + |ItemBytes(todo[0])|] == ItemBytes(todo[0])
    ensures data[pos + |ItemBytes(todo[0])|..] == PacketBytes(todo[1..])
    ensures AllReadable(todo) ==> Readable(todo[0]) && AllReadable(todo[1..])
  {
    hide ItemBytes, Readable;
    var n := |ItemBytes(todo[0])|;
    SliceOfDrop(data, pos, 0, n);
    SliceOfDrop(data, pos, n, n);
    assert data[pos..][0..n] == data[pos..][..n];
  }

  /** The bytes of an item are those of a number, and of the characters if it is a string. */
  lemma ItemStarts(item: Item)
    requires Writable(item)
    ensures |ItemBytes(item)| >= 4
    ensures var n := Bytes.Number(ItemBytes(item)[..4]);
            match item
            case Num(m) => n == m && |ItemBytes(item)| == 4
            case Str(s) => n == |s| && |ItemBytes(item)| == 4 + 2 * n && WideOf(ItemBytes(item)[4..]) == s
  {
    hide Little, Bytes.Number, WideBytes, WideOf;
    PowerOf4();
    match item {
      case Num(m) =>
        NumberOfLittle(m, 4);
        assert ItemBytes(item)[..4] == Little(m, 4);
      case Str(s) =>
        NumberOfLittle(|s|, 4);
        WideOfWideBytes(s);
        assert ItemBytes(item)[..4] == Little(|s|, 4) && ItemBytes(item)[4..] == WideBytes(s);
    }
  }

  /** What a reader finds where the next item of a packet stands. */
  lemma Expected(data: seq<Byte>, pos: nat, todo: seq<Item>)
    requires pos <= |data| && data[pos..] == PacketBytes(todo) && todo != [] && AllReadable(todo)
    ensures pos + 4 <= |data| && AllReadable(todo[1..]) && Readable(todo[0])
    ensures var n := Bytes.Number(data[pos..pos + 4]);
            match todo[0]
            case Num(m) => n == m && data[pos + 4..] == PacketBytes(todo[1..])
            case Str(s) =>
              && n == |s| && pos + 4 + n * 2 <= |data| && WideOf(data[pos + 4..pos + 4 + n * 2]) == s
              && data[pos + 4 + n * 2..] == PacketBytes(todo[1..])
  {
    hide PacketBytes, AllReadable, Bytes.Number, Little, WideOf, WideBytes, ItemBytes;
    TodoStarts(data, pos, todo);
    ItemStarts(todo[0]);
    var item := ItemBytes(todo[0]);
    assert item[..4] == data[pos..pos + 4];
    assert item[4..] == data[pos + 4..pos + |item|];
  }

  lemma WordBytes(field: seq<Byte>)
    requires |field| == 4
    ensures Bytes.Number(field) < NUMBER_LIMIT && Little(Bytes.Number(field), 4) == field
  {
    PowerOf4();
    NumberBound(field);
    LittleOfNumber(field);
  }

  class Reader {
    const data: seq<Byte>
    var pos: nat
    /** What has been read; and, if the data are a packet somebody has in mind, what is left
        of that packet. */
    ghost var seen: seq<Item>
    ghost var right: bool
    ghost var todo: seq<Item>

    ghost predicate Valid()
      reads this
    {
      && |data| <= CAPACITY && pos <= |data| && data[..pos] == PacketBytes(seen) && AllReadable(seen)
      && (right ==> data[pos..] == PacketBytes(todo) && AllReadable(todo))
    }

    constructor (data: seq<Byte>, ghost packet: seq<Item>)
      requires |data| <= CAPACITY
      ensures Valid() && this.data == data && pos == 0 && seen == []
      ensures right == (data == PacketBytes(packet) && AllReadable(packet)) && todo == packet
    {
      this.data, pos, seen := data, 0, [];
      right := data == PacketBytes(packet) && AllReadable(packet);
      todo := packet;
      new;
      assert data[..0] == [] && data[0..] == data;
    }

    method Word() returns (ok: bool, n: nat)
      requires pos <= |data|
      modifies this`pos
      ensures ok == (old(pos) + 4 <= |data|)
      ensures pos == if ok then old(pos) + 4 else old(pos)
      ensures ok ==> n == Bytes.Number(data[old(pos)..pos])
    {
      if pos + 4 > |data| {
        return false, 0;
      }
      n := Bytes.Number(data[pos..pos + 4]);
      pos := pos + 4;
      ok := true;
    }

    method Number() returns (ok: bool, n: nat)
      requires Valid()
      modifies this`pos, this`seen, this`right, this`todo
      ensures ok ==> Valid() && n < NUMBER_LIMIT && seen == old(seen) + [Num(n)]
      ensures old(right) && old(todo) != [] && old(todo[0]).Num? ==>
                ok && right && n == old(todo[0]).n && todo == old(todo)[1..]
    {
      hide PacketBytes, AllReadable, Bytes.Number, Little;
      ghost var start, expected := pos, right && todo != [] && todo[0].Num?;
      if expected {
        Expected(data, pos, todo);
      }
      ok, n := Word();
      if !ok {
        return;
      }
      WordBytes(data[start..pos]);
      SeenGrows(data, start, seen, Num(n));
      seen := seen + [Num(n)];
      right := expected;
      if expected {
        todo := todo[1..];
      }
    }

    method String() returns (ok: bool, s: Text)
      requires Valid()
      modifies this`pos, this`seen, this`right, this`todo
      ensures ok ==> Valid() && |s| <= LONGEST && 0 !in s && seen == old(seen) + [Str(s)]
      ensures old(right) && old(todo) != [] && old(todo[0]).Str? ==>
                ok && right && s == old(todo[0]).s && todo == old(todo)[1..]
    {
      hide PacketBytes, AllReadable, Bytes.Number, Little, WideOf, WideBytes, ItemBytes;
      ghost var start, expected := pos, right && todo != [] && todo[0].Str?;
      if expected {
        Expected(data, pos, todo);
      }
      var n;
      ok, n := Word();
      s := [];
      if !ok || n > LONGEST || pos + n * 2 > |data| {
        return false, s;
      }
      WordBytes(data[start..pos]);
      s := WideOf(data[pos..pos + n * 2]);
      StringBytes(data, start, pos, n);
      pos := pos + n * 2;
      if 0 in s {
        return false, s;
      }
      SeenGrows(data, start, seen, Str(s));
      seen := seen + [Str(s)];
      right := expected;
      if expected {
        todo := todo[1..];
      }
    }

    method End() returns (ok: bool)
      requires Valid()
      ensures ok ==> data == PacketBytes(seen)
      ensures right && todo == [] ==> ok
    {
      ok := pos == |data|;
      assert data[..|data|] == data;
    }
  }

  lemma StringBytes(data: seq<Byte>, start: nat, pos: nat, n: nat)
    requires pos == start + 4 && pos + n * 2 <= |data| && Little(n, 4) == data[start..pos]
    ensures |WideOf(data[pos..pos + n * 2])| == n
    ensures ItemBytes(Str(WideOf(data[pos..pos + n * 2]))) == data[start..pos + n * 2]
  {
    hide Little, WideOf, WideBytes;
    WideBytesOfWide(data[pos..pos + n * 2]);
    assert data[start..pos + n * 2] == data[start..pos] + data[pos..pos + n * 2];
  }
}
