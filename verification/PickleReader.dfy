/** The reader as the transport runs it: an index into the payload and a growing stack. */
module PickleReader {
  import opened Bytes
  import opened Wrappers
  import opened Pickle

  /** The next `len` bytes and the index after them. */
  function ReadBytes(data: seq<byte>, index: nat, len: nat): Result<(seq<byte>, nat), PickleError>
    requires index <= |data|
  {
    if index + len <= |data| then Ok((data[index..index + len], index + len)) else Err(Truncated)
  }

  /** A length of the given width, then that many bytes. */
  function ReadCounted(data: seq<byte>, index: nat, width: nat): Result<(seq<byte>, nat), PickleError>
    requires index <= |data|
  {
    var (prefix, start) :- ReadBytes(data, index, width);
    ReadBytes(data, start, FromLe(prefix))
  }

  lemma CountedIsPushBytes(
      data: seq<byte>, index: nat, width: nat, wrap: seq<byte> -> Option<Value>, stack: seq<StackItem>)
    requires index <= |data|
    ensures PushBytes(wrap, width, data[index..], stack) ==
      match ReadCounted(data, index, width)
      case Err(e) => Fail(e)
      case Ok((bytes, end)) =>
        match wrap(bytes)
        case None => Fail(InvalidText)
        case Some(v) => Continue(data[end..], stack + [Item(v)])
  {
    if index + width <= |data| {
      assert data[index..][..width] == data[index..index + width];
      assert data[index..][width..] == data[index + width..];
      var len := FromLe(data[index..index + width]);
      if index + width + len <= |data| {
        assert data[index + width..][..len] == data[index + width..index + width + len];
        assert data[index + width..][len..] == data[index + width + len..];
      }
    }
  }

  lemma BytesArePushInteger(data: seq<byte>, index: nat, width: nat, read: seq<byte> -> int, stack: seq<StackItem>)
    requires index <= |data|
    ensures PushInteger(read, width, data[index..], stack) ==
      match ReadBytes(data, index, width)
      case Err(e) => Fail(e)
      case Ok((bytes, end)) => Continue(data[end..], stack + [Item(Integer(read(bytes)))])
  {
    if index + width <= |data| {
      assert data[index..][..width] == data[index..index + width];
      assert data[index..][width..] == data[index + width..];
    }
  }

  lemma PairsStep(values: seq<StackItem>, i: nat, added: seq<Entry>)
    requires i + 1 < |values| && values[i] != Mark && values[i + 1] != Mark
    ensures Prepend(added, Pairs(values[i..]))
      == Prepend(added + [Entry(values[i].v, values[i + 1].v)], Pairs(values[i + 2..]))
  {
    assert values[i..][2..] == values[i + 2..];
    var tail := Pairs(values[i + 2..]);
    if tail.Ok? {
      assert added + ([Entry(values[i].v, values[i + 1].v)] + tail.value)
        == added + [Entry(values[i].v, values[i + 1].v)] + tail.value;
    }
  }

  /** `rposition` of the last mark, as the index after it. */
  method FindLastMark(stack: seq<StackItem>) returns (k: nat)
    ensures k == AfterLastMark(stack)
  {
    k := |stack|;
    assert stack[..|stack|] == stack;
    while k > 0 && stack[k - 1] != Mark
      invariant 0 <= k <= |stack|
      invariant AfterLastMark(stack[..k]) == AfterLastMark(stack)
    {
      assert stack[..k][..k - 1] == stack[..k - 1];
      k := k - 1;
    }
  }

  /** Pairs up `values` and appends them to `entries`. */
  method AppendPairs(entries: seq<Entry>, values: seq<StackItem>) returns (r: Result<seq<Entry>, PickleError>)
    ensures r == Prepend(entries, Pairs(values))
  {
    var gathered, i := entries, 0;
    assert values[0..] == values;
    while i < |values|
      invariant i <= |values|
      invariant Prepend(entries, Pairs(values)) == Prepend(gathered, Pairs(values[i..]))
    {
      if i + 1 == |values| {
        return Err(OddItemCount);
      }
      if values[i] == Mark || values[i + 1] == Mark {
        return Err(MarkAmongItems);
      }
      PairsStep(values, i, gathered);
      gathered := gathered + [Entry(values[i].v, values[i + 1].v)];
      i := i + 2;
    }
    assert gathered + [] == gathered;
    return Ok(gathered);
  }

  method PickleSetItems(stack: seq<StackItem>) returns (r: Result<seq<StackItem>, PickleError>)
    ensures r == SetItems(stack)
  {
    var markEnd := FindLastMark(stack);
    if markEnd == 0 {
      return Err(NoMark);
    }
    var values, below := stack[markEnd..], stack[..markEnd - 1];
    if below == [] || below[|below| - 1] == Mark || !below[|below| - 1].v.Map? {
      return Err(TargetNotADict);
    }
    var entries :- AppendPairs(below[|below| - 1].v.entries, values);
    return Ok(below[|below| - 1 := Item(Map(entries))]);
  }

  /** Reads any byte string in bounds and to an end, and does what the stack machine does. */
  method ReadPythonPickleValue(utf8: seq<byte> -> bool, data: seq<byte>) returns (r: Result<Value, PickleError>)
    ensures r == Exec(utf8, data, [])
  {
    var index, stack := 0, [];
    while index < |data|
      invariant index <= |data|
      invariant Exec(utf8, data[index..], stack) == Exec(utf8, data, [])
      decreases |data| - index
    {
      var opcode := data[index];
      index := index + 1;
      var next :- Dispatch(utf8, opcode, data, index, stack);
      match next {
        case Finished(v) => return Ok(v);
        case Running(index', stack') => index, stack := index', stack';
      }
    }
    return Err(NoStop);
  }

  datatype Progress = Running(index: nat, stack: seq<StackItem>) | Finished(value: Value)

  method Dispatch(utf8: seq<byte> -> bool, opcode: byte, data: seq<byte>, index: nat, stack: seq<StackItem>)
    returns (r: Result<Progress, PickleError>)
    requires index <= |data|
    ensures match r
      case Err(e) => Step(utf8, opcode, data[index..], stack) == Fail(e)
      case Ok(Finished(v)) => Step(utf8, opcode, data[index..], stack) == Done(v)
      case Ok(Running(i, s)) =>
        index <= i <= |data| && Step(utf8, opcode, data[index..], stack) == Continue(data[i..], s)
  {
    if opcode == 0x80 || opcode == 0x95 {
      var skipped :- ReadBytes(data, index, if opcode == 0x80 then 1 else 8);
      return Ok(Running(skipped.1, stack));
    } else if opcode == 0x94 {
      return Ok(Running(index, stack));
    } else if opcode == '(' as int {
      return Ok(Running(index, stack + [Mark]));
    } else if opcode == 0x8c || opcode == 'X' as int {
      var width := if opcode == 0x8c then 1 else 4;
      CountedIsPushBytes(data, index, width, Text(utf8), stack);
      var read :- ReadCounted(data, index, width);
      if !utf8(read.0) {
        return Err(InvalidText);
      }
      return Ok(Running(read.1, stack + [Item(String(read.0))]));
    } else if opcode == 'C' as int || opcode == 'B' as int {
      var width := if opcode == 'C' as int then 1 else 4;
      CountedIsPushBytes(data, index, width, b => Some(Binary(b)), stack);
      var read :- ReadCounted(data, index, width);
      return Ok(Running(read.1, stack + [Item(Binary(read.0))]));
    } else if opcode == 'K' as int || opcode == 'M' as int {
      var width := if opcode == 'K' as int then 1 else 2;
      BytesArePushInteger(data, index, width, UnsignedFromLe, stack);
      var read :- ReadBytes(data, index, width);
      return Ok(Running(read.1, stack + [Item(Integer(FromLe(read.0)))]));
    } else if opcode == 'J' as int {
      BytesArePushInteger(data, index, 4, I32FromLe, stack);
      var read :- ReadBytes(data, index, 4);
      return Ok(Running(read.1, stack + [Item(Integer(I32FromLe(read.0)))]));
    } else if opcode == 'u' as int {
      var stack' :- PickleSetItems(stack);
      return Ok(Running(index, stack'));
    } else if opcode == 's' as int {
      var stack' :- SetItem(stack);
      return Ok(Running(index, stack'));
    } else if opcode == '.' as int {
      if stack == [] || stack[|stack| - 1] == Mark {
        return Err(NotAValue);
      }
      return Ok(Finished(stack[|stack| - 1].v));
    } else if opcode == '}' as int {
      return Ok(Running(index, stack + [Item(Map([]))]));
    } else if opcode == ']' as int {
      return Ok(Running(index, stack + [Item(Array([]))]));
    } else if opcode == 'N' as int {
      return Ok(Running(index, stack + [Item(Nil)]));
    } else if opcode == 0x88 || opcode == 0x89 {
      return Ok(Running(index, stack + [Item(Boolean(opcode == 0x88))]));
    }
    return Err(UnsupportedOpcode(opcode));
  }
}
