/** driver/mbim/protocol.go: the device slot mappings, a list behind a table of offsets and sizes. */
module MbimSlots {
  import opened Bytes

  /** 32-bit words, least significant octet first. */
  function Words(ws: seq<u32>): (s: seq<byte>)
    ensures |s| == 4 * |ws|
  {
    if ws == [] then [] else Words(ws[..|ws| - 1]) + Le32(ws[|ws| - 1])
  }

  lemma {:induction false} WordAt(ws: seq<u32>, i: nat)
    requires i < |ws|
    ensures Get32(Words(ws), 4 * i) == ws[i]
  {
    hide Get32, Le32;
    var last := |ws| - 1;
    var before := Words(ws[..last]);
    if i == last {
      assert before + Le32(ws[last]) + [] == Words(ws);
      Read32(before, ws[last], []);
    } else {
      WordAt(ws[..last], i);
      WordIn(before, Le32(ws[last]), 4 * i);
    }
  }

  lemma WordIn(s: seq<byte>, tail: seq<byte>, at: nat)
    requires at + 4 <= |s|
    ensures Get32(s + tail, at) == Get32(s, at)
  {
  }

  lemma WordsMore(ws: seq<u32>, w: u32)
    ensures Words(ws + [w]) == Words(ws) + Le32(w)
  {
  }

  // Writing

  /** Words of the offset table (protocol.go:131-135): in uint32, where slot i goes, and its size. */
  function TableWord(count: u32, j: nat): u32 {
    if j % 2 == 0 then Wrap32(4 + 8 * count + 4 * (j / 2)) else 4
  }

  function Table(count: u32, n: nat): (ws: seq<u32>)
    ensures |ws| == n
  {
    seq(n, j requires 0 <= j < n => TableWord(count, j))
  }

  /** The words of the request's payload. */
  function MapWords(count: u32, slots: seq<u32>): seq<u32> {
    [count] + if count == 0 then [] else Table(count, 2 * count) + slots
  }

  /** DeviceSlotMappingsRequest.Request's payload (protocol.go:126-139) */
  method MarshalMap(count: u32, slots: seq<u32>) returns (buf: seq<byte>)
    ensures buf == Words(MapWords(count, slots))
  {
    hide Le32, TableWord;
    ghost var ws := [count];
    WordsMore([], count);
    assert [] + [count] == ws && Words([]) == [];
    buf := Le32(count);
    if count > 0 {
      var dataOffset := Wrap32(4 + 8 * count);
      var i := 0;
      while i < count
        invariant 0 <= i <= count && ws == [count] + Table(count, 2 * i) && buf == Words(ws)
      {
        TableRow(count, i);
        WordsMore(ws, Wrap32(dataOffset + i * 4));
        WordsMore(ws + [Wrap32(dataOffset + i * 4)], 4);
        buf := buf + Le32(Wrap32(dataOffset + i * 4));
        buf := buf + Le32(4);
        ws := ws + [Wrap32(dataOffset + i * 4)] + [4];
        i := i + 1;
      }
      ghost var head := ws;
      var k := 0;
      while k < |slots|
        invariant 0 <= k <= |slots| && ws == head + slots[..k] && buf == Words(ws)
      {
        WordsMore(ws, slots[k]);
        buf := buf + Le32(slots[k]);
        ws := ws + [slots[k]];
        k := k + 1;
      }
      assert ws == MapWords(count, slots);
    }
  }

  lemma TableRow(count: u32, i: nat)
    ensures Wrap32(Wrap32(4 + 8 * count) + i * 4) == TableWord(count, 2 * i)
    ensures Table(count, 2 * (i + 1)) == Table(count, 2 * i) + [TableWord(count, 2 * i)] + [4]
  {
    assert 2 * i / 2 == i && 2 * i % 2 == 0 && (2 * i + 1) % 2 == 1;
    WrapTwice(4 + 8 * count, i * 4);
  }

  lemma WrapTwice(a: nat, b: nat)
    ensures Wrap32(Wrap32(a) + b) == Wrap32(a + b)
  {
  }

  // Reading

  function Offset(data: seq<byte>, i: nat): u32
    requires 12 + 8 * i <= |data|
  {
    Get32(data, 4 + 8 * i)
  }

  /** Row i of the table is there, has size 4, and its slot lies inside the data. */
  predicate RowFits(data: seq<byte>, i: nat) {
    12 + 8 * i <= |data| && Get32(data, 8 + 8 * i) == 4 && Offset(data, i) + 4 <= |data|
  }

  /** In plain arithmetic: the whole table is there, and every row fits. */
  predicate MapFits(data: seq<byte>) {
    && |data| >= 4
    && var count := Get32(data, 0);
       4 + 8 * count <= |data| && forall i :: 0 <= i < count ==> RowFits(data, i)
  }

  /** The slots listed through the table. */
  function Listed(data: seq<byte>): (slots: seq<u32>)
    requires MapFits(data)
  {
    seq(Get32(data, 0), i requires 0 <= i < Get32(data, 0) && RowFits(data, i) => Get32(data, Offset(data, i)))
  }

  /** DeviceSlotMappingsResponse.UnmarshalBinary (protocol.go:166-196), in uint32 arithmetic. Below 2^32
      octets nothing wraps, every read is inside the data, and what is accepted is exactly MapFits. */
  method UnmarshalMap(data: seq<byte>) returns (slots: Option<seq<u32>>)
    requires |data| < U32
    ensures slots == if MapFits(data) then Some(Listed(data)) else None
  {
    hide Get32;
    if |data| < 4 { return None; }
    var count := Get32(data, 0);
    if count == 0 {
      assert Listed(data) == [];
      return Some([]);
    }
    if count > Wrap32((|data| - 4) / 8) { return None; }
    var tableEnd := Wrap32(4 + count * 8);
    if |data| < tableEnd { return None; }
    var found: seq<u32> := [];
    var i := 0;
    while i < count
      invariant 0 <= i <= count && |found| == i && 4 + 8 * count <= |data|
      invariant forall j :: 0 <= j < i ==> RowFits(data, j) && found[j] == Get32(data, Offset(data, j))
    {
      var entryOffset := Wrap32(4 + i * 8);
      var slotDataOffset := Get32(data, entryOffset);
      var slotDataSize := Get32(data, entryOffset + 4);
      if slotDataSize != 4 {
        assert !RowFits(data, i);
        return None;
      }
      if slotDataOffset > Wrap32(|data|) || slotDataSize > Wrap32(|data|) - slotDataOffset {
        assert !RowFits(data, i);
        return None;
      }
      found := found + [Get32(data, slotDataOffset)];
      i := i + 1;
    }
    assert MapFits(data) && found == Listed(data);
    return Some(found);
  }

  // The law

  /** Reading back what was written: the first MapCount slots, when there are that many, and an error
      otherwise. So the list itself comes back exactly when MapCount is its length. */
  lemma MapComesBack(count: u32, slots: seq<u32>)
    requires 4 + 8 * count + 4 * |slots| < U32
    ensures var data := Words(MapWords(count, slots));
            && |data| < U32
            && (MapFits(data) <==> count <= |slots|)
            && (count <= |slots| ==> Listed(data) == slots[..count])
  {
    var ws, data := MapWords(count, slots), Words(MapWords(count, slots));
    WordAt(ws, 0);
    if count > 0 {
      forall i | 0 <= i < count && i <= |slots|
        ensures RowFits(data, i) <==> i < |slots|
        ensures i < |slots| ==> RowFits(data, i) && Get32(data, Offset(data, i)) == slots[i]
      {
        RowWritten(count, slots, i);
      }
      if count > |slots| { assert !RowFits(data, |slots|); }
    }
  }

  lemma RowWritten(count: u32, slots: seq<u32>, i: nat)
    requires 4 + 8 * count + 4 * |slots| < U32 && i < count && i <= |slots|
    ensures var data := Words(MapWords(count, slots));
            && (RowFits(data, i) <==> i < |slots|)
            && (i < |slots| ==> RowFits(data, i) && Get32(data, Offset(data, i)) == slots[i])
  {
    hide Get32, Words;
    var ws, data := MapWords(count, slots), Words(MapWords(count, slots));
    var k := 1 + 2 * i;
    WordAt(ws, k);
    WordAt(ws, k + 1);
    assert ws[k] == TableWord(count, 2 * i) && ws[k + 1] == TableWord(count, 2 * i + 1);
    assert 2 * i / 2 == i && 2 * i % 2 == 0 && (2 * i + 1) % 2 == 1;
    assert 4 * k == 4 + 8 * i && 4 * (k + 1) == 8 + 8 * i;
    var at := 1 + 2 * count + i;
    assert Offset(data, i) == 4 * at;
    if i < |slots| {
      WordAt(ws, at);
      assert ws[at] == slots[i];
    }
  }

  /** The payload, place by place: the count, a row of offset and size for each slot, and the slots, one after
      another. */
  lemma MapOctets(count: u32, slots: seq<u32>, i: nat)
    requires 0 < count && 4 + 8 * count + 4 * |slots| < U32
    ensures var data, table := Words(MapWords(count, slots)), 4 + 8 * count;
            && |data| == table + 4 * |slots| && Get32(data, 0) == count
            && (i < count ==> Get32(data, 4 + 8 * i) == (table + 4 * i) % 0x1_0000_0000 && Get32(data, 8 + 8 * i) == 4)
            && (i < |slots| ==> Get32(data, table + 4 * i) == slots[i])
  {
    hide Get32, Words;
    var ws, k, at := MapWords(count, slots), 1 + 2 * i, 1 + 2 * count + i;
    WordAt(ws, 0);
    if i < count {
      WordAt(ws, k);
      WordAt(ws, k + 1);
      assert ws[k] == TableWord(count, 2 * i) && ws[k + 1] == TableWord(count, 2 * i + 1);
      assert 2 * i / 2 == i && 2 * i % 2 == 0 && (2 * i + 1) % 2 == 1;
      assert 4 * k == 4 + 8 * i && 4 * (k + 1) == 8 + 8 * i;
    }
    if i < |slots| {
      WordAt(ws, at);
      assert ws[at] == slots[i] && 4 * at == 4 + 8 * count + 4 * i;
    }
  }
}
