/** Taking a request apart: the cursor over its bytes, the fetches each opcode makes, and the
    way back. Arguments stay the bytes they are; a typed fetch is a view of them. */
module RequestCodec {
  import opened FileContents
  import opened LittleEndian
  import opened Options

  const HEADER_SIZE: nat := 40
  const INIT_IN_SIZE: nat := 64
  const INIT_FLAGS2_OFFSET: nat := 16
  const FORGET_ONE_SIZE: nat := 16

  // ----- The cursor -----

  /** Where the first zero byte is, or the length when there is none. */
  function FirstNul(data: seq<byte>): (n: nat)
    ensures n <= |data| && (n < |data| ==> data[n] == 0)
  {
    if data == [] || data[0] == 0 then 0 else 1 + FirstNul(data[1..])
  }

  lemma {:induction false} NoneBefore(data: seq<byte>)
    ensures NoNul(data[..FirstNul(data)])
  {
    if data != [] && data[0] != 0 {
      NoneBefore(data[1..]);
      assert data[..FirstNul(data)] == [data[0]] + data[1..][..FirstNul(data[1..])];
    }
  }

  predicate NoNul(s: seq<byte>) { forall i | 0 <= i < |s| :: s[i] != 0 }

  /** `data` is what is left; `address` is where it lies in memory, which only the alignment
      of typed fetches depends on. */
  class ArgumentIterator {
    var data: seq<byte>
    var address: nat

    constructor (data: seq<byte>, address: nat)
      ensures this.data == data && this.address == address
    {
      this.data := data;
      this.address := address;
    }

    method FetchAll() returns (r: seq<byte>)
      modifies this
      ensures r == old(data) && data == [] && address == old(address) + |r|
    {
      r := data;
      address := address + |data|;
      data := [];
    }

    /** A typed argument of `size` bytes. A misaligned one stops the program, so callers have
        to show that theirs is not. A failed fetch consumes nothing. */
    method Fetch(size: nat, alignment: nat) returns (r: Option<seq<byte>>)
      requires alignment > 0 && address % alignment == 0
      modifies this
      ensures r == None <==> |old(data)| < size
      ensures r == None ==> data == old(data) && address == old(address)
      ensures r.Some? ==> |r.value| == size && r.value + data == old(data) && address == old(address) + size
    {
      if |data| < size {
        return None;
      }
      r := Some(data[..size]);
      data := data[size..];
      address := address + size;
    }

    /** A zero-terminated string, without its terminator, which is consumed. */
    method FetchStr() returns (r: Option<seq<byte>>)
      modifies this
      ensures r == None <==> NoNul(old(data))
      ensures r == None ==> data == old(data) && address == old(address)
      ensures r.Some? ==> NoNul(r.value) && r.value + [0] + data == old(data) && address == old(address) + |r.value| + 1
      ensures r.Some? ==> r.value == old(data)[..FirstNul(old(data))]
    {
      var len := FirstNul(data);
      NoneBefore(data);
      assert data[..|data|] == data;
      if len == |data| {
        return None;
      }
      r := Some(data[..len]);
      data := data[len + 1..];
      address := address + len + 1;
    }
  }

  // ----- What each opcode carries -----

  datatype Tail =
    | Nothing
    | Data                          // the rest, whatever its length
    | Sized(at: nat, strict: bool)  // the rest, whose length the argument states at `at`
    | Nodes                         // as many forget entries as the argument states
    | InitIn                        // a fuse_init_in that may be cut short

  /** Structures first, then strings, then the tail. */
  datatype Shape = Shape(sizes: seq<nat>, names: nat, tail: Tail)

  /** The fetches made for an opcode. `ext` says whether FUSE_SETXATTR_EXT was negotiated. */
  function Layout(opcode: nat, ext: bool): Option<Shape> {
    match opcode
    case 1 => Some(Shape([], 1, Nothing))           // LOOKUP
    case 2 => Some(Shape([8], 0, Nothing))          // FORGET
    case 3 => Some(Shape([16], 0, Nothing))         // GETATTR
    case 4 => Some(Shape([88], 0, Nothing))         // SETATTR
    case 5 => Some(Shape([], 0, Nothing))           // READLINK
    case 6 => Some(Shape([], 2, Nothing))           // SYMLINK
    case 8 => Some(Shape([16], 1, Nothing))         // MKNOD
    case 9 => Some(Shape([8], 1, Nothing))          // MKDIR
    case 10 => Some(Shape([], 1, Nothing))          // UNLINK
    case 11 => Some(Shape([], 1, Nothing))          // RMDIR
    case 12 => Some(Shape([8], 2, Nothing))         // RENAME
    case 13 => Some(Shape([8], 1, Nothing))         // LINK
    case 14 => Some(Shape([8], 0, Nothing))         // OPEN
    case 15 => Some(Shape([40], 0, Nothing))        // READ
    case 16 => Some(Shape([40], 0, Sized(16, true)))// WRITE
    case 17 => Some(Shape([], 0, Nothing))          // STATFS
    case 18 => Some(Shape([24], 0, Nothing))        // RELEASE
    case 20 => Some(Shape([16], 0, Nothing))        // FSYNC
    case 21 => Some(Shape(if ext then [8, 8] else [8], 1, Sized(0, false))) // SETXATTR
    case 22 => Some(Shape([8], 1, Nothing))         // GETXATTR
    case 23 => Some(Shape([8], 0, Nothing))         // LISTXATTR
    case 24 => Some(Shape([], 1, Nothing))          // REMOVEXATTR
    case 25 => Some(Shape([24], 0, Nothing))        // FLUSH
    case 26 => Some(Shape([], 0, InitIn))           // INIT
    case 27 => Some(Shape([8], 0, Nothing))         // OPENDIR
    case 28 => Some(Shape([40], 0, Nothing))        // READDIR
    case 29 => Some(Shape([24], 0, Nothing))        // RELEASEDIR
    case 30 => Some(Shape([16], 0, Nothing))        // FSYNCDIR
    case 31 => Some(Shape([48], 0, Nothing))        // GETLK
    case 32 => Some(Shape([48], 0, Nothing))        // SETLK
    case 33 => Some(Shape([48], 0, Nothing))        // SETLKW
    case 34 => Some(Shape([8], 0, Nothing))         // ACCESS
    case 35 => Some(Shape([16], 1, Nothing))        // CREATE
    case 36 => Some(Shape([8], 0, Nothing))         // INTERRUPT
    case 37 => Some(Shape([16], 0, Nothing))        // BMAP
    case 38 => Some(Shape([], 0, Nothing))          // DESTROY
    case 39 => Some(Shape([32], 0, Data))           // IOCTL
    case 40 => Some(Shape([24], 0, Nothing))        // POLL
    case 41 => Some(Shape([], 0, Data))             // NOTIFY_REPLY
    case 42 => Some(Shape([8], 0, Nodes))           // BATCH_FORGET
    case 43 => Some(Shape([32], 0, Nothing))        // FALLOCATE
    case 44 => Some(Shape([40], 0, Nothing))        // READDIRPLUS
    case 45 => Some(Shape([16], 2, Nothing))        // RENAME2
    case 46 => Some(Shape([24], 0, Nothing))        // LSEEK
    case 47 => Some(Shape([56], 0, Nothing))        // COPY_FILE_RANGE
    case 50 => Some(Shape([8], 0, Nothing))         // SYNCFS
    case 51 => Some(Shape([16], 1, Nothing))        // TMPFILE
    case 52 => Some(Shape([24], 0, Nothing))        // STATX
    case 4096 => Some(Shape([INIT_IN_SIZE], 0, Nothing)) // CUSE_INIT
    case _ => None
  }

  /** Sizes are multiples of eight, so structures in a row stay aligned for 64-bit fields. */
  lemma LayoutAligned(opcode: nat, ext: bool)
    requires Layout(opcode, ext).Some?
    ensures var s := Layout(opcode, ext).value;
            && (forall k | 0 <= k < |s.sizes| :: s.sizes[k] % 8 == 0)
            && (s.tail.Sized? ==> |s.sizes| > 0 && s.tail.at + 4 <= s.sizes[0])
            && (s.tail.Nodes? ==> |s.sizes| > 0 && s.sizes[0] >= 4 && s.names == 0)
            && (s.tail.InitIn? ==> s.sizes == [] && s.names == 0)
  {
  }

  datatype Operation = Operation(opcode: nat, args: seq<seq<byte>>, names: seq<seq<byte>>, tail: seq<byte>)

  /** Stopped is the assertion that a WRITE has as much data as it announces. */
  datatype Parsed = Parsed(op: Operation) | Insufficient | Unknown | Stopped

  function Field32(arg: seq<byte>, at: nat): nat
    requires at + 4 <= |arg|
  {
    Get(arg[at..at + 4])
  }

  // ----- The parser as a function -----

  datatype Taken = Taken(pieces: seq<seq<byte>>, rest: seq<byte>)

  function TakeArgs(data: seq<byte>, sizes: seq<nat>): (r: Option<Taken>)
    ensures r.Some? ==> |r.value.pieces| == |sizes| && forall k | 0 <= k < |sizes| :: |r.value.pieces[k]| == sizes[k]
    decreases |sizes|
  {
    if sizes == [] then Some(Taken([], data))
    else if |data| < sizes[0] then None
    else
      match TakeArgs(data[sizes[0]..], sizes[1..])
      case None => None
      case Some(t) => Some(Taken([data[..sizes[0]]] + t.pieces, t.rest))
  }

  function TakeNames(data: seq<byte>, count: nat): Option<Taken>
    decreases count
  {
    if count == 0 then Some(Taken([], data))
    else
      var len := FirstNul(data);
      if len == |data| then None
      else
        match TakeNames(data[len + 1..], count - 1)
        case None => None
        case Some(t) => Some(Taken([data[..len]] + t.pieces, t.rest))
  }

  lemma {:induction false} TakenAreNames(data: seq<byte>, count: nat)
    requires TakeNames(data, count).Some?
    ensures var names := TakeNames(data, count).value.pieces;
            |names| == count && forall k | 0 <= k < count :: NoNul(names[k])
    decreases count
  {
    if count > 0 {
      hide NoNul;
      var len := FirstNul(data);
      NoneBefore(data);
      TakenAreNames(data[len + 1..], count - 1);
    }
  }

  function ParseTail(opcode: nat, shape: Shape, args: seq<seq<byte>>, names: seq<seq<byte>>, rest: seq<byte>): Parsed
    requires shape.tail.Sized? ==> |args| > 0 && shape.tail.at + 4 <= |args[0]|
    requires shape.tail.Nodes? ==> |args| > 0 && |args[0]| >= 4
  {
    match shape.tail
    case Nothing => Parsed(Operation(opcode, args, names, []))
    case Data => Parsed(Operation(opcode, args, names, rest))
    case Sized(at, strict) =>
      if |rest| == Field32(args[0], at) then Parsed(Operation(opcode, args, names, rest))
      else if strict then Stopped
      else Insufficient
    case Nodes =>
      var size := FORGET_ONE_SIZE * Field32(args[0], 0);
      if |rest| < size then Insufficient else Parsed(Operation(opcode, args, names, rest[..size]))
    case InitIn =>
      if |rest| < INIT_FLAGS2_OFFSET then Insufficient
      else
        var prefix := Min(|rest|, INIT_IN_SIZE);
        Parsed(Operation(opcode, args, names, rest[..prefix] + Zeros(INIT_IN_SIZE - prefix)))
  }

  function Parse(opcode: nat, ext: bool, data: seq<byte>): Parsed {
    match Layout(opcode, ext)
    case None => Unknown
    case Some(shape) =>
      match TakeArgs(data, shape.sizes)
      case None => Insufficient
      case Some(a) =>
        match TakeNames(a.rest, shape.names)
        case None => Insufficient
        case Some(n) =>
          LayoutAligned(opcode, ext);
          ParseTail(opcode, shape, a.pieces, n.pieces, n.rest)
  }

  function After(pieces: seq<seq<byte>>, t: Option<Taken>): Option<Taken> {
    match t
    case None => None
    case Some(taken) => Some(Taken(pieces + taken.pieces, taken.rest))
  }

  lemma AfterNothing(t: Option<Taken>)
    ensures After([], t) == t
  {
    if t.Some? {
      assert [] + t.value.pieces == t.value.pieces;
    }
  }

  lemma AfterOne(pieces: seq<seq<byte>>, piece: seq<byte>, t: Option<Taken>)
    ensures After(pieces + [piece], t) == After(pieces, After([piece], t))
  {
    if t.Some? {
      assert pieces + [piece] + t.value.pieces == pieces + ([piece] + t.value.pieces);
    }
  }

  /** Nothing is left to take, and the pieces are complete; or a piece is missing. */
  lemma AfterLast(pieces: seq<seq<byte>>, data: seq<byte>)
    ensures After(pieces, TakeArgs(data, [])) == Some(Taken(pieces, data))
    ensures After(pieces, TakeNames(data, 0)) == Some(Taken(pieces, data))
    ensures After(pieces, None) == None
  {
    assert pieces + [] == pieces;
  }

  lemma TakeOneArg(data: seq<byte>, sizes: seq<nat>)
    requires sizes != []
    ensures |data| < sizes[0] ==> TakeArgs(data, sizes) == None
    ensures |data| >= sizes[0] ==>
      TakeArgs(data, sizes) == After([data[..sizes[0]]], TakeArgs(data[sizes[0]..], sizes[1..]))
  {
  }

  /** The typed fetches of a layout, one after another; none of them is misaligned. */
  method FetchArgs(it: ArgumentIterator, sizes: seq<nat>) returns (r: Option<seq<seq<byte>>>)
    requires it.address % 8 == 0 && forall k | 0 <= k < |sizes| :: sizes[k] % 8 == 0
    modifies it
    ensures r == None <==> TakeArgs(old(it.data), sizes) == None
    ensures r.Some? ==> TakeArgs(old(it.data), sizes) == Some(Taken(r.value, it.data)) && it.address % 8 == 0
  {
    hide TakeArgs, After;
    var args: seq<seq<byte>> := [];
    ghost var left := sizes;
    AfterNothing(TakeArgs(it.data, sizes));
    while |args| < |sizes|
      invariant |args| <= |sizes| && left == sizes[|args|..] && it.address % 8 == 0
      invariant TakeArgs(old(it.data), sizes) == After(args, TakeArgs(it.data, left))
    {
      var size := sizes[|args|];
      assert left[0] == size && left[1..] == sizes[|args| + 1..];
      ghost var before := it.data;
      TakeOneArg(before, left);
      var arg := it.Fetch(size, 8);
      AfterLast(args, before);
      if arg == None {
        return None;
      }
      assert arg.value == before[..size] && it.data == before[size..];
      AfterOne(args, arg.value, TakeArgs(it.data, left[1..]));
      args, left := args + [arg.value], left[1..];
    }
    AfterLast(args, it.data);
    return Some(args);
  }

  lemma TakeOneName(data: seq<byte>, count: nat)
    requires count > 0
    ensures var len := FirstNul(data);
            TakeNames(data, count)
            == if len == |data| then None else After([data[..len]], TakeNames(data[len + 1..], count - 1))
  {
  }

  method FetchNames(it: ArgumentIterator, count: nat) returns (r: Option<seq<seq<byte>>>)
    modifies it
    ensures r == None <==> TakeNames(old(it.data), count) == None
    ensures r.Some? ==> TakeNames(old(it.data), count) == Some(Taken(r.value, it.data))
    ensures count == 0 ==> it.address == old(it.address)
  {
    hide TakeNames, After, NoNul;
    var names: seq<seq<byte>> := [];
    AfterNothing(TakeNames(it.data, count));
    while |names| < count
      invariant |names| <= count && (names == [] ==> it.address == old(it.address))
      invariant TakeNames(old(it.data), count) == After(names, TakeNames(it.data, count - |names|))
    {
      ghost var before := it.data;
      TakeOneName(before, count - |names|);
      AfterLast(names, before);
      var name := it.FetchStr();
      if name == None {
        NulIff(before);
        return None;
      }
      NulIff(before);
      assert it.data == before[FirstNul(before) + 1..];
      AfterOne(names, name.value, TakeNames(it.data, count - |names| - 1));
      names := names + [name.value];
    }
    AfterLast(names, it.data);
    return Some(names);
  }

  lemma NulIff(data: seq<byte>)
    ensures FirstNul(data) == |data| <==> NoNul(data)
  {
    NoneBefore(data);
    assert data[..|data|] == data;
  }

  /** The parser as the program runs it, driving the cursor over arguments that begin at an
      eight-byte boundary. */
  method ParseRequest(opcode: nat, ext: bool, data: seq<byte>, address: nat) returns (r: Parsed)
    requires address % 8 == 0
    ensures r == Parse(opcode, ext, data)
  {
    var layout := Layout(opcode, ext);
    if layout == None {
      return Unknown;
    }
    var shape := layout.value;
    LayoutAligned(opcode, ext);
    hide Layout;
    var it := new ArgumentIterator(data, address);
    var args := FetchArgs(it, shape.sizes);
    if args == None {
      return Insufficient;
    }
    var names := FetchNames(it, shape.names);
    if names == None {
      return Insufficient;
    }
    r := FinishParse(it, opcode, shape, args.value, names.value);
  }

  method FinishParse(it: ArgumentIterator, opcode: nat, shape: Shape, args: seq<seq<byte>>, names: seq<seq<byte>>)
    returns (r: Parsed)
    requires shape.tail.Sized? ==> |args| > 0 && shape.tail.at + 4 <= |args[0]|
    requires shape.tail.Nodes? ==> |args| > 0 && |args[0]| >= 4 && it.address % 8 == 0
    modifies it
    ensures r == ParseTail(opcode, shape, args, names, old(it.data))
  {
    match shape.tail {
      case Nothing =>
        return Parsed(Operation(opcode, args, names, []));
      case Data =>
        var all := it.FetchAll();
        return Parsed(Operation(opcode, args, names, all));
      case Sized(at, strict) =>
        var all := it.FetchAll();
        if |all| != Field32(args[0], at) {
          return if strict then Stopped else Insufficient;
        }
        return Parsed(Operation(opcode, args, names, all));
      case Nodes =>
        var before := it.data;
        var nodes := it.Fetch(FORGET_ONE_SIZE * Field32(args[0], 0), 8);
        if nodes == None {
          return Insufficient;
        }
        assert nodes.value == before[..|nodes.value|];
        return Parsed(Operation(opcode, args, names, nodes.value));
      case InitIn =>
        var all := it.FetchAll();
        if |all| < INIT_FLAGS2_OFFSET {
          return Insufficient;
        }
        var prefix := Min(|all|, INIT_IN_SIZE);
        return Parsed(Operation(opcode, args, names, all[..prefix] + Zeros(INIT_IN_SIZE - prefix)));
    }
  }

  // ----- The way back -----

  function Concat(pieces: seq<seq<byte>>): seq<byte> {
    if pieces == [] then [] else pieces[0] + Concat(pieces[1..])
  }

  function PutNames(names: seq<seq<byte>>): seq<byte> {
    if names == [] then [] else names[0] + [0] + PutNames(names[1..])
  }

  function Serialize(op: Operation): seq<byte> {
    Concat(op.args) + PutNames(op.names) + op.tail
  }

  predicate TailFits(t: Tail, args: seq<seq<byte>>, tail: seq<byte>) {
    match t
    case Nothing => tail == []
    case Data => true
    case Sized(at, _) => |args| > 0 && at + 4 <= |args[0]| && |tail| == Field32(args[0], at)
    case Nodes => |args| > 0 && 4 <= |args[0]| && |tail| == FORGET_ONE_SIZE * Field32(args[0], 0)
    case InitIn => |tail| == INIT_IN_SIZE
  }

  /** An operation a kernel could have meant: structures of the right size, names without a
      zero byte, and a tail of the length the structure announces. */
  predicate Meant(op: Operation, ext: bool) {
    && Layout(op.opcode, ext).Some?
    && var shape := Layout(op.opcode, ext).value;
       && |op.args| == |shape.sizes| && (forall k | 0 <= k < |op.args| :: |op.args[k]| == shape.sizes[k])
       && |op.names| == shape.names && (forall k | 0 <= k < |op.names| :: NoNul(op.names[k]))
       && TailFits(shape.tail, op.args, op.tail)
  }

  lemma {:induction false} TakeArgsBack(pieces: seq<seq<byte>>, sizes: seq<nat>, rest: seq<byte>)
    requires |pieces| == |sizes| && forall k | 0 <= k < |sizes| :: |pieces[k]| == sizes[k]
    ensures TakeArgs(Concat(pieces) + rest, sizes) == Some(Taken(pieces, rest))
  {
    if sizes == [] {
      assert Concat(pieces) + rest == rest;
    } else {
      TakeArgsBack(pieces[1..], sizes[1..], rest);
      var data := Concat(pieces) + rest;
      assert data[..sizes[0]] == pieces[0] && data[sizes[0]..] == Concat(pieces[1..]) + rest;
      assert pieces == [pieces[0]] + pieces[1..];
    }
  }

  lemma {:induction false} FirstNulIs(name: seq<byte>, rest: seq<byte>)
    requires NoNul(name)
    ensures var data := name + [0] + rest;
            FirstNul(data) == |name| < |data| && data[..|name|] == name && data[|name| + 1..] == rest
  {
    var data := name + [0] + rest;
    assert data[|name|] == 0 && forall i | 0 <= i < |name| :: data[i] == name[i];
    NoneBefore(data);
  }

  lemma {:induction false} TakeNamesBack(names: seq<seq<byte>>, rest: seq<byte>)
    requires forall k | 0 <= k < |names| :: NoNul(names[k])
    ensures TakeNames(PutNames(names) + rest, |names|) == Some(Taken(names, rest))
  {
    if names == [] {
      assert PutNames(names) + rest == rest;
    } else {
      hide NoNul, FirstNul, TakeNames, After, PutNames;
      var name, others := names[0], names[1..];
      var more := PutNames(others) + rest;
      assert names == [name] + others;
      PutOneName(name, others);
      assert PutNames(names) + rest == name + [0] + more;
      FirstNulIs(name, more);
      TakeNamesBack(others, rest);
      TakeOneName(name + [0] + more, |names|);
      AfterPiece(name, others, rest);
    }
  }

  lemma AfterPiece(piece: seq<byte>, pieces: seq<seq<byte>>, rest: seq<byte>)
    ensures After([piece], Some(Taken(pieces, rest))) == Some(Taken([piece] + pieces, rest))
  {
  }

  lemma ParsedTail(op: Operation, ext: bool)
    requires Meant(op, ext)
    ensures ParseTail(op.opcode, Layout(op.opcode, ext).value, op.args, op.names, op.tail) == Parsed(op)
  {
  }

  /** Writing an operation out and parsing it under the same negotiated layout gives it back. */
  lemma ParseSerialize(op: Operation, ext: bool)
    requires Meant(op, ext)
    ensures Parse(op.opcode, ext, Serialize(op)) == Parsed(op)
  {
    var shape := Layout(op.opcode, ext).value;
    var strings := PutNames(op.names) + op.tail;
    hide Layout, TakeArgs, TakeNames, Concat, PutNames, ParseTail, NoNul, Get;
    assert Serialize(op) == Concat(op.args) + strings;
    TakeArgsBack(op.args, shape.sizes, strings);
    TakeNamesBack(op.names, op.tail);
    ParsedTail(op, ext);
  }

  lemma {:induction false} TakeArgsSplits(data: seq<byte>, sizes: seq<nat>)
    requires TakeArgs(data, sizes).Some?
    ensures var t := TakeArgs(data, sizes).value; Concat(t.pieces) + t.rest == data
  {
    if sizes != [] {
      TakeArgsSplits(data[sizes[0]..], sizes[1..]);
      var t := TakeArgs(data, sizes).value;
      assert t.pieces[1..] == TakeArgs(data[sizes[0]..], sizes[1..]).value.pieces;
      assert data == data[..sizes[0]] + data[sizes[0]..];
    }
  }

  lemma {:induction false} TakeNamesSplits(data: seq<byte>, count: nat)
    requires TakeNames(data, count).Some?
    ensures var t := TakeNames(data, count).value; PutNames(t.pieces) + t.rest == data
  {
    if count != 0 {
      hide FirstNul, NoNul, TakeNames, PutNames, After;
      TakeOneName(data, count);
      var len := FirstNul(data);
      var name, tail := data[..len], data[len + 1..];
      AfterLast([name], tail);
      TakeNamesSplits(tail, count - 1);
      var t := TakeNames(tail, count - 1).value;
      AfterPiece(name, t.pieces, t.rest);
      PutOneName(name, t.pieces);
      SplitAt(data, len, PutNames(t.pieces), t.rest);
    }
  }

  lemma SplitAt(data: seq<byte>, len: nat, a: seq<byte>, b: seq<byte>)
    requires len < |data| && data[len] == 0 && data[len + 1..] == a + b
    ensures data[..len] + [0] + a + b == data
  {
  }

  lemma PutOneName(name: seq<byte>, names: seq<seq<byte>>)
    ensures PutNames([name] + names) == name + [0] + PutNames(names)
  {
  }

  lemma NoPieces(data: seq<byte>)
    ensures TakeArgs(data, []) == Some(Taken([], data)) && TakeNames(data, 0) == Some(Taken([], data))
    ensures Concat([]) == [] && PutNames([]) == []
  {
  }

  /** What the tail step keeps of the pieces before it and takes of the bytes after them. */
  lemma TailKept(opcode: nat, shape: Shape, args: seq<seq<byte>>, names: seq<seq<byte>>, rest: seq<byte>)
    requires shape.tail.Sized? ==> |args| > 0 && shape.tail.at + 4 <= |args[0]|
    requires shape.tail.Nodes? ==> |args| > 0 && |args[0]| >= 4
    requires ParseTail(opcode, shape, args, names, rest).Parsed?
    ensures var op := ParseTail(opcode, shape, args, names, rest).op;
            && op == Operation(opcode, args, names, op.tail)
            && TailFits(shape.tail, args, op.tail)
            && if shape.tail.InitIn? then |rest| >= INIT_FLAGS2_OFFSET && op.tail == Resize(rest, INIT_IN_SIZE)
               else op.tail <= rest
  {
  }

  /** Whatever parses was meant, and its pieces with what is left over are the input; only an
      INIT may have been extended with zeros, or cut to the structure's size. */
  lemma SerializeParse(opcode: nat, ext: bool, data: seq<byte>)
    requires Parse(opcode, ext, data).Parsed?
    ensures var op := Parse(opcode, ext, data).op;
            && Meant(op, ext) && op.opcode == opcode
            && if Layout(opcode, ext).value.tail.InitIn?
               then |data| >= INIT_FLAGS2_OFFSET && Serialize(op) == Resize(data, INIT_IN_SIZE)
               else Serialize(op) <= data
  {
    var shape := Layout(opcode, ext).value;
    LayoutAligned(opcode, ext);
    var a := TakeArgs(data, shape.sizes).value;
    var n := TakeNames(a.rest, shape.names).value;
    var op := Parse(opcode, ext, data).op;
    assert op == ParseTail(opcode, shape, a.pieces, n.pieces, n.rest).op;
    TailKept(opcode, shape, a.pieces, n.pieces, n.rest);
    hide Layout, Parse, TakeArgs, TakeNames, ParseTail, Concat, PutNames, Get, NoNul, TailFits;
    TakeArgsSplits(data, shape.sizes);
    TakeNamesSplits(a.rest, shape.names);
    TakenAreNames(a.rest, shape.names);
    var front := Concat(a.pieces) + PutNames(n.pieces);
    assert data == front + n.rest;
    if shape.tail.InitIn? {
      NoPieces(data);
      assert front == [];
    } else {
      assert front + op.tail <= front + n.rest;
    }
  }

  /** Once the extended attribute layout is negotiated its flags stand between the structure
      and the name; parsing one layout as the other is what the negotiated flags prevent. */
  lemma SetxattrLayouts(size: seq<byte>, flags: seq<byte>, name: seq<byte>, value: seq<byte>)
    requires |size| == 8 && |flags| == 8 && NoNul(name) && Get(size[..4]) == |value|
    ensures Parse(21, true, size + flags + name + [0] + value) == Parsed(Operation(21, [size, flags], [name], value))
    ensures Parse(21, false, size + name + [0] + value) == Parsed(Operation(21, [size], [name], value))
  {
    hide Parse, Get, TakeArgs, TakeNames;
    var extended := Operation(21, [size, flags], [name], value);
    var plain := Operation(21, [size], [name], value);
    assert Concat([size, flags]) == size + flags && Concat([size]) == size by {
      assert [size, flags][1..] == [flags] && [flags][1..] == [] && [size][1..] == [];
      assert Concat([flags]) == flags + [] == flags && size + [] == size;
    }
    assert PutNames([name]) == name + [0] by {
      PutOneName(name, []);
      assert [name] + [] == [name] && name + [0] + [] == name + [0];
    }
    assert size[0..4] == size[..4];
    assert Serialize(extended) == size + flags + name + [0] + value;
    assert Serialize(plain) == size + name + [0] + value;
    ParseSerialize(extended, true);
    ParseSerialize(plain, false);
  }

  // ----- The packet around the arguments -----

  datatype InHeader = InHeader(opcode: nat, unique: nat, nodeid: nat, uid: nat, gid: nat, pid: nat, padding: nat)

  predicate HeaderFits(h: InHeader) {
    && h.opcode < TWO_TO_THE_32 && h.unique < TWO_TO_THE_64 && h.nodeid < TWO_TO_THE_64
    && h.uid < TWO_TO_THE_32 && h.gid < TWO_TO_THE_32 && h.pid < TWO_TO_THE_32 && h.padding < TWO_TO_THE_32
  }

  function Packet(h: InHeader, body: seq<byte>): seq<byte> {
    Put(HEADER_SIZE + |body|, 4) + (Put(h.opcode, 4) + (Put(h.unique, 8) + (Put(h.nodeid, 8)
    + (Put(h.uid, 4) + (Put(h.gid, 4) + (Put(h.pid, 4) + (Put(h.padding, 4) + body)))))))
  }

  /** Overrun is a stated length shorter than the header itself, which stops the program. */
  datatype Received = Request(header: InHeader, data: seq<byte>) | ShortReadHeader | ShortRead(have: nat, need: nat) | Overrun

  function TryFrom(data: seq<byte>): Received {
    if |data| < HEADER_SIZE then ShortReadHeader
    else
      var len := Get(data[..4]);
      if |data| < len then ShortRead(|data|, len)
      else if len < HEADER_SIZE then Overrun
      else
        var h := InHeader(Get(data[4..8]), Get(data[8..16]), Get(data[16..24]), Get(data[24..28]),
                          Get(data[28..32]), Get(data[32..36]), Get(data[36..40]));
        Request(h, data[HEADER_SIZE..len])
  }

  lemma PacketParts(h: InHeader, body: seq<byte>, extra: seq<byte>)
    ensures var b := Packet(h, body) + extra;
            && |b| == HEADER_SIZE + |body| + |extra|
            && b[..4] == Put(HEADER_SIZE + |body|, 4) && b[4..8] == Put(h.opcode, 4) && b[8..16] == Put(h.unique, 8)
            && b[16..24] == Put(h.nodeid, 8) && b[24..28] == Put(h.uid, 4) && b[28..32] == Put(h.gid, 4)
            && b[32..36] == Put(h.pid, 4) && b[36..40] == Put(h.padding, 4)
            && b[HEADER_SIZE..HEADER_SIZE + |body|] == body
  {
    hide Put;
    var b := Packet(h, body) + extra;
    assert b == Put(HEADER_SIZE + |body|, 4) + Put(h.opcode, 4) + Put(h.unique, 8) + Put(h.nodeid, 8)
                + Put(h.uid, 4) + Put(h.gid, 4) + Put(h.pid, 4) + Put(h.padding, 4) + body + extra;
  }

  /** A packet is taken apart into its header and exactly its own arguments, whatever else is
      in the buffer behind them. */
  lemma PacketBack(h: InHeader, body: seq<byte>, extra: seq<byte>)
    requires HeaderFits(h) && HEADER_SIZE + |body| < TWO_TO_THE_32
    ensures TryFrom(Packet(h, body) + extra) == Request(h, body)
  {
    hide Put, Get, Packet;
    PacketParts(h, body, extra);
    GetPut32(HEADER_SIZE + |body|);
    GetPut32(h.opcode);
    GetPut64(h.unique);
    GetPut64(h.nodeid);
    GetPut32(h.uid);
    GetPut32(h.gid);
    GetPut32(h.pid);
    GetPut32(h.padding);
  }

  /** A packet cut short anywhere is refused, never misread. */
  lemma PacketCut(h: InHeader, body: seq<byte>, have: nat)
    requires HEADER_SIZE + |body| < TWO_TO_THE_32 && have < HEADER_SIZE + |body|
    ensures have <= |Packet(h, body)|
    ensures TryFrom(Packet(h, body)[..have])
            == if have < HEADER_SIZE then ShortReadHeader else ShortRead(have, HEADER_SIZE + |body|)
  {
    hide Put, Get, Packet;
    PacketParts(h, body, []);
    var packet := Packet(h, body);
    assert packet + [] == packet;
    if have >= HEADER_SIZE {
      assert packet[..have][..4] == packet[..4];
      GetPut32(HEADER_SIZE + |body|);
    }
  }

  /** From the kernel's operation to the one dispatched, through the whole wire format. */
  lemma RequestRoundTrip(h: InHeader, op: Operation, ext: bool, extra: seq<byte>)
    requires HeaderFits(h) && h.opcode == op.opcode && Meant(op, ext)
    requires HEADER_SIZE + |Serialize(op)| < TWO_TO_THE_32
    ensures var r := TryFrom(Packet(h, Serialize(op)) + extra);
            r.Request? && r.header == h && Parse(r.header.opcode, ext, r.data) == Parsed(op)
  {
    hide Meant, Serialize, Parse, Packet, TryFrom;
    PacketBack(h, Serialize(op), extra);
    ParseSerialize(op, ext);
  }
}
