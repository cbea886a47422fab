/**
  The RPC pickle codec: an encoder for nested values and the stack machine that reads them back.
  Which byte strings are text is a parameter, `utf8`.
 */
module Pickle {
  import opened Bytes
  import opened Wrappers

  /** MessagePack values. `Unsupported` stands for floats and extension types, which the encoder refuses. */
  datatype Value =
    | Nil
    | Boolean(b: bool)
    | Integer(i: int)
    | String(text: seq<byte>)
    | Binary(bytes: seq<byte>)
    | Array(values: seq<Value>)
    | Map(entries: seq<Entry>)
    | Unsupported

  datatype Entry = Entry(key: Value, value: Value)

  datatype PickleError =
    | Truncated
    | InvalidText
    | UnsupportedOpcode(opcode: byte)
    | NoStop
    | NotAValue
    | NoMark
    | TargetNotADict
    | OddItemCount
    | MarkAmongItems
    | MissingValue
    | MissingKey
    | IntegerTooLarge
    | UnsupportedType

  // ----- little-endian integers

  function ToLe(v: nat, width: nat): (bytes: seq<byte>)
    ensures |bytes| == width
  {
    if width == 0 then [] else [v % 256] + ToLe(v / 256, width - 1)
  }

  function FromLe(bytes: seq<byte>): nat {
    if bytes == [] then 0 else bytes[0] + 256 * FromLe(bytes[1..])
  }

  function Pow256(width: nat): nat {
    if width == 0 then 1 else 256 * Pow256(width - 1)
  }

  lemma {:induction false} LeRoundTrip(v: nat, width: nat)
    requires v < Pow256(width)
    ensures FromLe(ToLe(v, width)) == v
  {
    if width > 0 {
      LeRoundTrip(v / 256, width - 1);
      assert ToLe(v, width)[1..] == ToLe(v / 256, width - 1);
    }
  }

  const I32_MAX := 0x7fff_ffff
  const TWO_32 := 0x1_0000_0000

  function I32ToLe(i: int): seq<byte> {
    ToLe(i % TWO_32, 4)
  }

  function UnsignedFromLe(bytes: seq<byte>): int {
    FromLe(bytes)
  }

  function I32FromLe(bytes: seq<byte>): int {
    var u := FromLe(bytes);
    if u > I32_MAX then u - TWO_32 else u
  }

  // ----- encoder

  function WriteInteger(i: int): Result<seq<byte>, PickleError> {
    if 0 <= i < 0x100 then Ok(['K' as int] + ToLe(i, 1))
    else if 0 <= i < 0x1_0000 then Ok(['M' as int] + ToLe(i, 2))
    else if -I32_MAX - 1 <= i <= I32_MAX then Ok(['J' as int] + I32ToLe(i))
    else Err(IntegerTooLarge)
  }

  /** Exactly the integers of 32 bits are written, each in the shortest of the three forms. */
  lemma IntegersShortest(i: int)
    ensures WriteInteger(i).Ok? <==> -0x8000_0000 <= i < 0x8000_0000
    ensures WriteInteger(i).Ok? ==>
      |WriteInteger(i).value| == if 0 <= i < 0x100 then 2 else if 0 <= i < 0x1_0000 then 3 else 5
  {}

  /** A length-prefixed payload followed by MEMOIZE; lengths are truncated to 32 bits. */
  function WriteBytes(short: byte, long: byte, bytes: seq<byte>): seq<byte> {
    (if |bytes| < 0x100 then [short] + ToLe(|bytes|, 1) else [long] + ToLe(|bytes| % TWO_32, 4)) + bytes + [0x94]
  }

  /** Payloads take one byte of length up to 255 and four beyond. */
  lemma PayloadOverhead(short: byte, long: byte, bytes: seq<byte>)
    ensures |WriteBytes(short, long, bytes)| == |bytes| + if |bytes| <= 255 then 3 else 6
  {}

  function Write(utf8: seq<byte> -> bool, v: Value): Result<seq<byte>, PickleError>
    decreases v
  {
    match v
    case Nil => Ok(['N' as int])
    case Boolean(b) => Ok([if b then 0x88 else 0x89])
    case Integer(i) => WriteInteger(i)
    case String(text) => if utf8(text) then Ok(WriteBytes(0x8c, 'X' as int, text)) else Err(InvalidText)
    case Binary(bytes) => Ok(WriteBytes('C' as int, 'B' as int, bytes))
    case Array(values) =>
      if values == [] then Ok([']' as int, 0x94])
      else
        var code :- WriteAll(utf8, values);
        Ok([']' as int, 0x94, '(' as int] + code + ['e' as int])
    case Map(entries) =>
      if entries == [] then Ok(['}' as int, 0x94])
      else
        var code :- WriteEntries(utf8, entries);
        Ok(['}' as int, 0x94, '(' as int] + code + ['u' as int])
    case Unsupported => Err(UnsupportedType)
  }

  function WriteAll(utf8: seq<byte> -> bool, vs: seq<Value>): Result<seq<byte>, PickleError>
    decreases vs
  {
    if vs == [] then Ok([])
    else
      var head :- Write(utf8, vs[0]);
      var tail :- WriteAll(utf8, vs[1..]);
      Ok(head + tail)
  }

  function WriteEntries(utf8: seq<byte> -> bool, es: seq<Entry>): Result<seq<byte>, PickleError>
    decreases es
  {
    if es == [] then Ok([])
    else
      var head :- WriteEntry(utf8, es[0]);
      var tail :- WriteEntries(utf8, es[1..]);
      Ok(head + tail)
  }

  function WriteEntry(utf8: seq<byte> -> bool, e: Entry): Result<seq<byte>, PickleError>
    decreases e
  {
    var key :- Write(utf8, e.key);
    var value :- Write(utf8, e.value);
    Ok(key + value)
  }

  function WriteDocument(utf8: seq<byte> -> bool, v: Value): Result<seq<byte>, PickleError> {
    var code :- Write(utf8, v);
    Ok([0x80, 0x05] + code + ['.' as int])
  }

  // ----- the stack machine

  datatype StackItem = Mark | Item(v: Value)

  datatype Outcome =
    | Continue(rest: seq<byte>, stack: seq<StackItem>)
    | Done(value: Value)
    | Fail(error: PickleError)

  function Skip(rest: seq<byte>, n: nat, stack: seq<StackItem>): Outcome {
    if n <= |rest| then Continue(rest[n..], stack) else Fail(Truncated)
  }

  function PushBytes(wrap: seq<byte> -> Option<Value>, width: nat, rest: seq<byte>, stack: seq<StackItem>): Outcome {
    if width > |rest| then Fail(Truncated)
    else
      var (len, tail) := (FromLe(rest[..width]), rest[width..]);
      if len > |tail| then Fail(Truncated)
      else match wrap(tail[..len])
        case None => Fail(InvalidText)
        case Some(v) => Continue(tail[len..], stack + [Item(v)])
  }

  function Text(utf8: seq<byte> -> bool): seq<byte> -> Option<Value> {
    bytes => if utf8(bytes) then Some(String(bytes)) else None
  }

  function PushInteger(read: seq<byte> -> int, width: nat, rest: seq<byte>, stack: seq<StackItem>): Outcome {
    if width > |rest| then Fail(Truncated) else Continue(rest[width..], stack + [Item(Integer(read(rest[..width])))])
  }

  /** Number of items up to and including the last mark, 0 without one. */
  function AfterLastMark(stack: seq<StackItem>): (k: nat)
    ensures k <= |stack| && (k > 0 ==> stack[k - 1] == Mark)
  {
    if stack == [] then 0
    else if stack[|stack| - 1] == Mark then |stack|
    else AfterLastMark(stack[..|stack| - 1])
  }

  function Pairs(items: seq<StackItem>): Result<seq<Entry>, PickleError> {
    if items == [] then Ok([])
    else if |items| == 1 then Err(OddItemCount)
    else if items[0] == Mark || items[1] == Mark then Err(MarkAmongItems)
    else
      var tail :- Pairs(items[2..]);
      Ok([Entry(items[0].v, items[1].v)] + tail)
  }

  function AddTo(stack: seq<StackItem>, entries: seq<Entry>): Result<seq<StackItem>, PickleError> {
    if stack == [] || stack[|stack| - 1] == Mark || !stack[|stack| - 1].v.Map? then Err(TargetNotADict)
    else Ok(stack[|stack| - 1 := Item(Map(stack[|stack| - 1].v.entries + entries))])
  }

  function SetItems(stack: seq<StackItem>): Result<seq<StackItem>, PickleError> {
    var k := AfterLastMark(stack);
    if k == 0 then Err(NoMark)
    else
      var _ :- AddTo(stack[..k - 1], []);
      var entries :- Pairs(stack[k..]);
      AddTo(stack[..k - 1], entries)
  }

  function SetItem(stack: seq<StackItem>): Result<seq<StackItem>, PickleError> {
    if |stack| < 1 || stack[|stack| - 1] == Mark then Err(MissingValue)
    else if |stack| < 2 || stack[|stack| - 2] == Mark then Err(MissingKey)
    else AddTo(stack[..|stack| - 2], [Entry(stack[|stack| - 2].v, stack[|stack| - 1].v)])
  }

  function Onward(rest: seq<byte>, r: Result<seq<StackItem>, PickleError>): Outcome {
    match r
    case Ok(stack) => Continue(rest, stack)
    case Err(e) => Fail(e)
  }

  function Step(utf8: seq<byte> -> bool, opcode: byte, rest: seq<byte>, stack: seq<StackItem>): (o: Outcome)
    ensures o.Continue? ==> |o.rest| <= |rest|
  {
    if opcode == 0x80 then Skip(rest, 1, stack)
    else if opcode == 0x95 then Skip(rest, 8, stack)
    else if opcode == 0x94 then Continue(rest, stack)
    else if opcode == '(' as int then Continue(rest, stack + [Mark])
    else if opcode == '}' as int then Continue(rest, stack + [Item(Map([]))])
    else if opcode == ']' as int then Continue(rest, stack + [Item(Array([]))])
    else if opcode == 'N' as int then Continue(rest, stack + [Item(Nil)])
    else if opcode == 0x88 then Continue(rest, stack + [Item(Boolean(true))])
    else if opcode == 0x89 then Continue(rest, stack + [Item(Boolean(false))])
    else if opcode == 0x8c then PushBytes(Text(utf8), 1, rest, stack)
    else if opcode == 'X' as int then PushBytes(Text(utf8), 4, rest, stack)
    else if opcode == 'C' as int then PushBytes(bytes => Some(Binary(bytes)), 1, rest, stack)
    else if opcode == 'B' as int then PushBytes(bytes => Some(Binary(bytes)), 4, rest, stack)
    else if opcode == 'K' as int then PushInteger(UnsignedFromLe, 1, rest, stack)
    else if opcode == 'M' as int then PushInteger(UnsignedFromLe, 2, rest, stack)
    else if opcode == 'J' as int then PushInteger(I32FromLe, 4, rest, stack)
    else if opcode == 'u' as int then Onward(rest, SetItems(stack))
    else if opcode == 's' as int then Onward(rest, SetItem(stack))
    else if opcode == '.' as int then
      if stack == [] || stack[|stack| - 1] == Mark then Fail(NotAValue) else Done(stack[|stack| - 1].v)
    else Fail(UnsupportedOpcode(opcode))
  }

  function Exec(utf8: seq<byte> -> bool, data: seq<byte>, stack: seq<StackItem>): Result<Value, PickleError>
    decreases |data|
  {
    if data == [] then Err(NoStop)
    else
      match Step(utf8, data[0], data[1..], stack)
      case Continue(rest, stack') => Exec(utf8, rest, stack')
      case Done(v) => Ok(v)
      case Fail(e) => Err(e)
  }

  // ----- what the machine does with encoded values

  /** No array with elements anywhere inside: the machine has no APPENDS. */
  predicate Readable(v: Value)
    decreases v
  {
    match v
    case Array(values) => values == []
    case Map(entries) => ReadableEntries(entries)
    case _ => true
  }

  predicate ReadableEntries(es: seq<Entry>)
    decreases es
  {
    es == [] || (ReadableEntry(es[0]) && ReadableEntries(es[1..]))
  }

  predicate ReadableEntry(e: Entry)
    decreases e
  {
    Readable(e.key) && Readable(e.value)
  }

  /** Every text and byte string fits the format's 32-bit lengths. */
  predicate Short(v: Value)
    decreases v
  {
    match v
    case String(text) => |text| < TWO_32
    case Binary(bytes) => |bytes| < TWO_32
    case Array(values) => forall x | x in values :: Short(x)
    case Map(entries) => forall e | e in entries :: Short(e.key) && Short(e.value)
    case _ => true
  }

  function Flatten(es: seq<Entry>): seq<StackItem> {
    if es == [] then [] else [Item(es[0].key), Item(es[0].value)] + Flatten(es[1..])
  }

  const NO_APPENDS: Result<Value, PickleError> := Err(UnsupportedOpcode('e' as int))

  lemma ExecStep(utf8: seq<byte> -> bool, opcode: byte, rest: seq<byte>, stack: seq<StackItem>)
    ensures Exec(utf8, [opcode] + rest, stack) ==
      match Step(utf8, opcode, rest, stack)
      case Continue(rest', stack') => Exec(utf8, rest', stack')
      case Done(v) => Ok(v)
      case Fail(e) => Err(e)
  {}

  lemma Slices(a: seq<byte>, b: seq<byte>)
    ensures (a + b)[..|a|] == a && (a + b)[|a|..] == b
  {}

  /** A length prefix of either width is read back, and with it the payload. */
  lemma PushBytesReads(
      wrap: seq<byte> -> Option<Value>, width: nat, bytes: seq<byte>, rest: seq<byte>, stack: seq<StackItem>)
    requires |bytes| < Pow256(width) && wrap(bytes).Some?
    ensures PushBytes(wrap, width, ToLe(|bytes|, width) + (bytes + rest), stack)
      == Continue(rest, stack + [Item(wrap(bytes).value)])
  {
    LeRoundTrip(|bytes|, width);
    hide ToLe, FromLe, Pow256;
    Slices(ToLe(|bytes|, width), bytes + rest);
    Slices(bytes, rest);
  }

  /** A payload written under `short` or `long` is pushed, and its MEMOIZE skipped. */
  lemma RunBytes(utf8: seq<byte> -> bool, wrap: seq<byte> -> Option<Value>, short: byte, long: byte,
                 bytes: seq<byte>, rest: seq<byte>, stack: seq<StackItem>)
    requires |bytes| < TWO_32 && wrap(bytes).Some?
    requires forall r :: Step(utf8, short, r, stack) == PushBytes(wrap, 1, r, stack)
    requires forall r :: Step(utf8, long, r, stack) == PushBytes(wrap, 4, r, stack)
    ensures Exec(utf8, WriteBytes(short, long, bytes) + rest, stack)
      == Exec(utf8, rest, stack + [Item(wrap(bytes).value)])
  {
    hide ToLe, PushBytes;
    var (opcode, width) := if |bytes| < 0x100 then (short, 1) else (long, 4);
    assert Pow256(1) == 0x100 && Pow256(4) == TWO_32;
    var code := ToLe(|bytes|, width) + (bytes + ([0x94] + rest));
    assert WriteBytes(short, long, bytes) + rest == [opcode] + code;
    PushBytesReads(wrap, width, bytes, [0x94] + rest, stack);
    ExecStep(utf8, opcode, code, stack);
    ExecStep(utf8, 0x94, rest, stack + [Item(wrap(bytes).value)]);
  }

  lemma RunIntegerAs(utf8: seq<byte> -> bool, opcode: byte, read: seq<byte> -> int, operand: seq<byte>,
                     i: int, rest: seq<byte>, stack: seq<StackItem>)
    requires read(operand) == i
    requires Step(utf8, opcode, operand + rest, stack) == PushInteger(read, |operand|, operand + rest, stack)
    ensures Exec(utf8, [opcode] + operand + rest, stack) == Exec(utf8, rest, stack + [Item(Integer(i))])
  {
    assert [opcode] + operand + rest == [opcode] + (operand + rest);
    ExecStep(utf8, opcode, operand + rest, stack);
    Slices(operand, rest);
  }

  lemma RunInteger(utf8: seq<byte> -> bool, i: int, rest: seq<byte>, stack: seq<StackItem>)
    requires WriteInteger(i).Ok?
    ensures Exec(utf8, WriteInteger(i).value + rest, stack) == Exec(utf8, rest, stack + [Item(Integer(i))])
  {
    assert Pow256(1) == 0x100 && Pow256(2) == 0x1_0000 && Pow256(4) == TWO_32;
    if 0 <= i < 0x100 {
      LeRoundTrip(i, 1);
      RunIntegerAs(utf8, 'K' as int, UnsignedFromLe, ToLe(i, 1), i, rest, stack);
    } else if 0 <= i < 0x1_0000 {
      LeRoundTrip(i, 2);
      RunIntegerAs(utf8, 'M' as int, UnsignedFromLe, ToLe(i, 2), i, rest, stack);
    } else {
      LeRoundTrip(i % TWO_32, 4);
      RunIntegerAs(utf8, 'J' as int, I32FromLe, I32ToLe(i), i, rest, stack);
    }
  }

  lemma {:induction false} FlattenPairs(es: seq<Entry>)
    ensures Pairs(Flatten(es)) == Ok(es)
    ensures forall x | x in Flatten(es) :: x != Mark
  {
    if es != [] {
      FlattenPairs(es[1..]);
      assert Flatten(es)[2..] == Flatten(es[1..]);
      assert [es[0]] + es[1..] == es;
    }
  }

  lemma {:induction false} LastMark(stack: seq<StackItem>, items: seq<StackItem>)
    requires forall x | x in items :: x != Mark
    ensures AfterLastMark(stack + [Mark] + items) == |stack| + 1
  {
    var all := stack + [Mark] + items;
    if items == [] {
      assert all[|all| - 1] == Mark;
    } else {
      var last := |items| - 1;
      assert all[|all| - 1] == items[last] && items[last] in items;
      assert forall x | x in items[..last] :: x in items;
      assert all[..|all| - 1] == stack + [Mark] + items[..last];
      LastMark(stack, items[..last]);
    }
  }

  /** SETITEMS gathers everything above the last mark into the dict under it, whatever lies below. */
  lemma SetItemsGathers(stack: seq<StackItem>, es: seq<Entry>)
    ensures SetItems(stack + [Item(Map([]))] + [Mark] + Flatten(es)) == Ok(stack + [Item(Map(es))])
  {
    hide SetItems, Flatten;
    SetItemsExtends(stack, [], es);
    assert [] + es == es;
  }

  /** A dict that has entries already keeps them, ahead of the new ones. */
  lemma SetItemsExtends(stack: seq<StackItem>, before: seq<Entry>, es: seq<Entry>)
    ensures SetItems(stack + [Item(Map(before))] + [Mark] + Flatten(es)) == Ok(stack + [Item(Map(before + es))])
  {
    hide Flatten, AfterLastMark, Pairs;
    var below := stack + [Item(Map(before))];
    var all := below + [Mark] + Flatten(es);
    FlattenPairs(es);
    LastMark(below, Flatten(es));
    assert all[..|below|] == below && all[|below| + 1..] == Flatten(es);
    assert below[|stack| := Item(Map(before + es))] == stack + [Item(Map(before + es))];
  }

  /** An encoded value runs to that value on top of an untouched stack, or stops at the first array with elements. */
  lemma {:induction false} RunValue(utf8: seq<byte> -> bool, v: Value, rest: seq<byte>, stack: seq<StackItem>)
    requires Write(utf8, v).Ok? && Short(v)
    ensures Exec(utf8, Write(utf8, v).value + rest, stack)
      == if Readable(v) then Exec(utf8, rest, stack + [Item(v)]) else NO_APPENDS
    decreases v
  {
    match v
    case Nil => ExecStep(utf8, 'N' as int, rest, stack);
    case Boolean(b) => ExecStep(utf8, if b then 0x88 else 0x89, rest, stack);
    case Integer(i) => RunInteger(utf8, i, rest, stack);
    case String(text) => RunBytes(utf8, Text(utf8), 0x8c, 'X' as int, text, rest, stack);
    case Binary(bytes) => RunBytes(utf8, b => Some(Binary(b)), 'C' as int, 'B' as int, bytes, rest, stack);
    case Array(values) => RunArray(utf8, values, rest, stack);
    case Map(entries) => RunMap(utf8, entries, rest, stack);
  }

  /** An empty container is pushed and its MEMOIZE skipped. */
  lemma RunEmpty(utf8: seq<byte> -> bool, dict: bool, rest: seq<byte>, stack: seq<StackItem>)
    ensures Exec(utf8, [if dict then '}' as int else ']' as int] + ([0x94] + rest), stack)
      == Exec(utf8, rest, stack + [Item(if dict then Map([]) else Array([]))])
  {}

  lemma RunMark(utf8: seq<byte> -> bool, rest: seq<byte>, stack: seq<StackItem>)
    ensures Exec(utf8, ['(' as int] + rest, stack) == Exec(utf8, rest, stack + [Mark])
  {}

  lemma {:induction false} RunArray(utf8: seq<byte> -> bool, values: seq<Value>, rest: seq<byte>, stack: seq<StackItem>)
    requires Write(utf8, Array(values)).Ok? && Short(Array(values))
    ensures Exec(utf8, Write(utf8, Array(values)).value + rest, stack)
      == if values == [] then Exec(utf8, rest, stack + [Item(Array(values))]) else NO_APPENDS
    decreases values, 1
  {
    hide Step, Exec;
    var code := Write(utf8, Array(values)).value + rest;
    assert code == [']' as int] + ([0x94] + code[2..]);
    RunEmpty(utf8, false, code[2..], stack);
    if values == [] {
      assert code[2..] == rest;
    } else {
      var after := WriteAll(utf8, values).value + (['e' as int] + rest);
      assert code[2..] == ['(' as int] + after;
      RunMark(utf8, after, stack + [Item(Array([]))]);
      RunElements(utf8, values, rest, stack + [Item(Array([]))] + [Mark]);
    }
  }

  lemma {:induction false} RunElements(utf8: seq<byte> -> bool, vs: seq<Value>, rest: seq<byte>, stack: seq<StackItem>)
    requires WriteAll(utf8, vs).Ok? && forall x | x in vs :: Short(x)
    ensures Exec(utf8, WriteAll(utf8, vs).value + (['e' as int] + rest), stack) == NO_APPENDS
    decreases vs, 0
  {
    if vs == [] {
      ExecStep(utf8, 'e' as int, rest, stack);
      assert [] + (['e' as int] + rest) == ['e' as int] + rest;
    } else {
      var (head, tail) := (Write(utf8, vs[0]).value, WriteAll(utf8, vs[1..]).value);
      var after := tail + (['e' as int] + rest);
      assert head + tail + (['e' as int] + rest) == head + after;
      RunValue(utf8, vs[0], after, stack);
      RunElements(utf8, vs[1..], rest, stack + [Item(vs[0])]);
    }
  }

  lemma {:induction false} RunMap(utf8: seq<byte> -> bool, es: seq<Entry>, rest: seq<byte>, stack: seq<StackItem>)
    requires Write(utf8, Map(es)).Ok? && Short(Map(es))
    ensures Exec(utf8, Write(utf8, Map(es)).value + rest, stack)
      == if ReadableEntries(es) then Exec(utf8, rest, stack + [Item(Map(es))]) else NO_APPENDS
    decreases es, 1
  {
    hide Step, Exec, SetItems;
    var code := Write(utf8, Map(es)).value + rest;
    assert code == ['}' as int] + ([0x94] + code[2..]);
    RunEmpty(utf8, true, code[2..], stack);
    if es == [] {
      assert code[2..] == rest;
    } else {
      var (body, after) := (WriteEntries(utf8, es).value, ['u' as int] + rest);
      assert code[2..] == ['(' as int] + (body + after);
      RunMark(utf8, body + after, stack + [Item(Map([]))]);
      RunEntries(utf8, es, after, stack + [Item(Map([]))] + [Mark]);
      RunSetItems(utf8, rest, stack, es);
    }
  }

  lemma RunSetItems(utf8: seq<byte> -> bool, rest: seq<byte>, stack: seq<StackItem>, es: seq<Entry>)
    ensures Exec(utf8, ['u' as int] + rest, stack + [Item(Map([]))] + [Mark] + Flatten(es))
      == Exec(utf8, rest, stack + [Item(Map(es))])
  {
    hide SetItems;
    SetItemsGathers(stack, es);
    ExecStep(utf8, 'u' as int, rest, stack + [Item(Map([]))] + [Mark] + Flatten(es));
  }

  lemma {:induction false} RunEntries(utf8: seq<byte> -> bool, es: seq<Entry>, rest: seq<byte>, stack: seq<StackItem>)
    requires WriteEntries(utf8, es).Ok? && forall e | e in es :: Short(e.key) && Short(e.value)
    ensures Exec(utf8, WriteEntries(utf8, es).value + rest, stack)
      == if ReadableEntries(es) then Exec(utf8, rest, stack + Flatten(es)) else NO_APPENDS
    decreases es, 0
  {
    hide Step, Exec;
    if es == [] {
      assert [] + rest == rest && stack + [] == stack;
    } else {
      var (head, tail) := (WriteEntry(utf8, es[0]).value, WriteEntries(utf8, es[1..]).value);
      assert head + tail + rest == head + (tail + rest);
      RunEntry(utf8, es[0], tail + rest, stack);
      var s1 := stack + [Item(es[0].key), Item(es[0].value)];
      RunEntries(utf8, es[1..], rest, s1);
      assert s1 + Flatten(es[1..]) == stack + Flatten(es);
    }
  }

  lemma {:induction false} RunEntry(utf8: seq<byte> -> bool, e: Entry, rest: seq<byte>, stack: seq<StackItem>)
    requires WriteEntry(utf8, e).Ok? && Short(e.key) && Short(e.value)
    ensures Exec(utf8, WriteEntry(utf8, e).value + rest, stack)
      == if ReadableEntry(e) then Exec(utf8, rest, stack + [Item(e.key), Item(e.value)]) else NO_APPENDS
    decreases e
  {
    var (key, value) := (Write(utf8, e.key).value, Write(utf8, e.value).value);
    assert key + value + rest == key + (value + rest);
    RunValue(utf8, e.key, value + rest, stack);
    RunValue(utf8, e.value, rest, stack + [Item(e.key)]);
    assert stack + [Item(e.key)] + [Item(e.value)] == stack + [Item(e.key), Item(e.value)];
  }

  // ----- opcodes the encoder does not use

  /**
    SETITEM appends the key and value on top to the dict under them, whatever lies below, and works
    on nothing else.
   */
  lemma SetItemAppends(stack: seq<StackItem>, es: seq<Entry>, key: Value, value: Value)
    ensures SetItem(stack + [Item(Map(es)), Item(key), Item(value)])
      == Ok(stack + [Item(Map(es + [Entry(key, value)]))])
  {
    var all := stack + [Item(Map(es)), Item(key), Item(value)];
    assert all[..|all| - 2] == stack + [Item(Map(es))];
    assert (stack + [Item(Map(es))])[|stack| := Item(Map(es + [Entry(key, value)]))]
      == stack + [Item(Map(es + [Entry(key, value)]))];
  }

  lemma SetItemNeeds(stack: seq<StackItem>)
    ensures SetItem(stack).Ok? <==>
      && |stack| >= 3 && stack[|stack| - 1] != Mark && stack[|stack| - 2] != Mark
      && stack[|stack| - 3] != Mark && stack[|stack| - 3].v.Map?
    ensures SetItem(stack) == Err(MissingValue) <==> stack == [] || stack[|stack| - 1] == Mark
    ensures SetItem(stack) == Err(MissingKey) <==>
      stack != [] && stack[|stack| - 1] != Mark && (|stack| == 1 || stack[|stack| - 2] == Mark)
    ensures SetItem(stack).Err? ==> SetItem(stack).error in {MissingValue, MissingKey, TargetNotADict}
  {}

  /** SETITEMS works exactly on a dict, a mark and an even number of items without marks above it. */
  lemma SetItemsNeeds(stack: seq<StackItem>)
    ensures SetItems(stack).Ok? <==>
      exists below: seq<StackItem>, before: seq<Entry>, es: seq<Entry> ::
        stack == below + [Item(Map(before))] + [Mark] + Flatten(es)
  {
    if SetItems(stack).Ok? {
      var k := AfterLastMark(stack);
      var es := Pairs(stack[k..]).value;
      PairsFlatten(stack[k..]);
      var below := stack[..k - 1];
      assert stack == below[..|below| - 1] + [Item(Map(below[|below| - 1].v.entries))] + [Mark] + Flatten(es);
    }
    forall below: seq<StackItem>, before: seq<Entry>, es: seq<Entry>
      | stack == below + [Item(Map(before))] + [Mark] + Flatten(es)
      ensures SetItems(stack).Ok?
    {
      SetItemsExtends(below, before, es);
    }
  }

  lemma {:induction false} PairsFlatten(items: seq<StackItem>)
    requires Pairs(items).Ok?
    ensures Flatten(Pairs(items).value) == items
  {
    if items != [] {
      PairsFlatten(items[2..]);
      var es := Pairs(items).value;
      assert es[1..] == Pairs(items[2..]).value;
      assert items == [items[0], items[1]] + items[2..];
    }
  }

  /** A dict written entry by entry: after each key and value, SETITEM. */
  function WriteEach(utf8: seq<byte> -> bool, es: seq<Entry>): Result<seq<byte>, PickleError> {
    if es == [] then Ok([])
    else
      var init :- WriteEach(utf8, es[..|es| - 1]);
      var last :- WriteEntry(utf8, es[|es| - 1]);
      Ok(init + last + ['s' as int])
  }

  lemma RunSetItem(
      utf8: seq<byte> -> bool, e: Entry, rest: seq<byte>, stack: seq<StackItem>, before: seq<Entry>)
    requires WriteEntry(utf8, e).Ok? && ReadableEntry(e) && Short(e.key) && Short(e.value)
    ensures Exec(utf8, WriteEntry(utf8, e).value + (['s' as int] + rest), stack + [Item(Map(before))])
      == Exec(utf8, rest, stack + [Item(Map(before + [e]))])
  {
    hide Exec, SetItem, WriteEntry, Short, ReadableEntry;
    var s := stack + [Item(Map(before))];
    RunEntry(utf8, e, ['s' as int] + rest, s);
    ExecStep(utf8, 's' as int, rest, s + [Item(e.key), Item(e.value)]);
    assert s + [Item(e.key), Item(e.value)] == stack + [Item(Map(before)), Item(e.key), Item(e.value)];
    SetItemAppends(stack, before, e.key, e.value);
  }

  /** The entries are appended one by one to the dict on top, in order. */
  lemma {:induction false} RunEach(
      utf8: seq<byte> -> bool, es: seq<Entry>, rest: seq<byte>, stack: seq<StackItem>, before: seq<Entry>)
    requires WriteEach(utf8, es).Ok?
    requires forall e | e in es :: ReadableEntry(e) && Short(e.key) && Short(e.value)
    ensures Exec(utf8, WriteEach(utf8, es).value + rest, stack + [Item(Map(before))])
      == Exec(utf8, rest, stack + [Item(Map(before + es))])
  {
    hide Exec, WriteEntry, Short, ReadableEntry;
    if es == [] {
      assert [] + rest == rest && before + [] == before;
    } else {
      var (init, last) := (es[..|es| - 1], es[|es| - 1]);
      var (head, tail) := (WriteEach(utf8, init).value, WriteEntry(utf8, last).value);
      var after := ['s' as int] + rest;
      assert head + tail + ['s' as int] + rest == head + (tail + after);
      RunEach(utf8, init, tail + after, stack, before);
      RunSetItem(utf8, last, rest, stack, before + init);
      assert before + init + [last] == before + es;
    }
  }

  /** FRAME and its eight bytes of length are skipped wherever they stand. */
  lemma FrameSkipped(utf8: seq<byte> -> bool, length: seq<byte>, rest: seq<byte>, stack: seq<StackItem>)
    requires |length| == 8
    ensures Exec(utf8, [0x95] + (length + rest), stack) == Exec(utf8, rest, stack)
  {
    ExecStep(utf8, 0x95, length + rest, stack);
    assert (length + rest)[8..] == rest;
  }

  /** A document as Python frames it, with its dict written entry by entry, reads back. */
  lemma FramedDictReads(utf8: seq<byte> -> bool, length: seq<byte>, es: seq<Entry>)
    requires |length| == 8 && WriteEach(utf8, es).Ok?
    requires forall e | e in es :: ReadableEntry(e) && Short(e.key) && Short(e.value)
    ensures Exec(utf8, [0x80] + ([0x04] + ([0x95] + (length
      + (['}' as int] + ([0x94] + (WriteEach(utf8, es).value + ['.' as int])))))), []) == Ok(Map(es))
  {
    hide Step, Exec;
    var stop := ['.' as int];
    var body := WriteEach(utf8, es).value + stop;
    var dict := ['}' as int] + ([0x94] + body);
    var framed := [0x95] + (length + dict);
    ProtoSkipped(utf8, 0x04, framed, []);
    FrameSkipped(utf8, length, dict, []);
    RunEmpty(utf8, true, body, []);
    assert [] + [Item(Map([]))] == [Item(Map([]))];
    RunEach(utf8, es, stop, [], []);
    assert [] + es == es && [] + [Item(Map(es))] == [Item(Map(es))];
    StopReturns(utf8, [], Map(es));
  }

  lemma ProtoSkipped(utf8: seq<byte> -> bool, version: byte, rest: seq<byte>, stack: seq<StackItem>)
    ensures Exec(utf8, [0x80] + ([version] + rest), stack) == Exec(utf8, rest, stack)
  {
    ExecStep(utf8, 0x80, [version] + rest, stack);
    assert ([version] + rest)[1..] == rest;
  }

  lemma StopReturns(utf8: seq<byte> -> bool, stack: seq<StackItem>, v: Value)
    ensures Exec(utf8, ['.' as int], stack + [Item(v)]) == Ok(v)
  {
    assert ['.' as int] == ['.' as int] + [];
    ExecStep(utf8, '.' as int, [], stack + [Item(v)]);
  }

  /** Reading what was written gives the value back exactly when no array inside it has elements. */
  lemma RoundTrip(utf8: seq<byte> -> bool, v: Value)
    requires WriteDocument(utf8, v).Ok? && Short(v)
    ensures Exec(utf8, WriteDocument(utf8, v).value, []) == if Readable(v) then Ok(v) else NO_APPENDS
  {
    var code := Write(utf8, v).value;
    var stop := ['.' as int];
    assert WriteDocument(utf8, v).value == [0x80] + ([0x05] + (code + stop));
    ExecStep(utf8, 0x80, [0x05] + (code + stop), []);
    assert ([0x05] + (code + stop))[1..] == code + stop;
    RunValue(utf8, v, stop, []);
    if Readable(v) {
      assert stop == stop + [];
      ExecStep(utf8, '.' as int, [], [] + [Item(v)]);
    }
  }
}
