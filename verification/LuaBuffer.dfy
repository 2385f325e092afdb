/** `luaL_Buffer`: a growing string buffer whose storage may move into a userdata box on the Lua stack. */
module LuaBuffer {

  /** 2^64, the number of `size_t` values. */
  const SIZE_MODULUS := 0x1_0000_0000_0000_0000

  type SizeT = x: int | 0 <= x < SIZE_MODULUS

  /** Arithmetic in `size_t`. */
  function Wrap(x: int): SizeT {
    x % SIZE_MODULUS
  }

  lemma WrapIs(x: int, r: int)
    requires x == r || x == r + SIZE_MODULUS || x == r - SIZE_MODULUS
    requires 0 <= r < SIZE_MODULUS
    ensures Wrap(x) == r
  {
  }

  datatype Slot = Text(s: string) | Box | Other(id: int)

  /** When the growth test lets a request for `sz` more bytes through. Doubling wraps once the size reaches half of
      the address space, and the wrapped size must not have dropped below what is already in the buffer. */
  ghost predicate Growable(size: SizeT, n: SizeT, sz: SizeT) {
    n + sz < SIZE_MODULUS && (2 * size < SIZE_MODULUS || 2 * size - SIZE_MODULUS >= n)
  }

  /** Twice the size, or just enough when that is not enough or has wrapped. */
  ghost function NewSize(size: SizeT, n: SizeT, sz: SizeT): int {
    if 2 * size < n + sz || 2 * size >= SIZE_MODULUS then n + sz else 2 * size
  }

  /** The size `luaL_prepbuffsize` asks for; None is the error "buffer too large". */
  method GrownSize(size: SizeT, n: SizeT, sz: SizeT) returns (ok: bool, newsize: SizeT)
    requires n <= size && size - n < sz
    ensures ok <==> Growable(size, n, sz)
    ensures ok <==> n + sz < 0x1_0000_0000_0000_0000 && (2 * size < 0x1_0000_0000_0000_0000 || 2 * size - 0x1_0000_0000_0000_0000 >= n)
    ensures ok ==> newsize >= n + sz && newsize == NewSize(size, n, sz)
    ensures ok && 2 * size < 0x1_0000_0000_0000_0000 ==> newsize >= 2 * size && (newsize == 2 * size || newsize == n + sz)
    ensures ok && 2 * size >= 0x1_0000_0000_0000_0000 ==> newsize == n + sz
  {
    newsize := Wrap(size * 2);
    WrapIs(size * 2, if 2 * size < SIZE_MODULUS then 2 * size else 2 * size - SIZE_MODULUS);
    WrapIs(newsize - n, if newsize >= n then newsize - n else newsize - n + SIZE_MODULUS);
    WrapIs(n + sz, if n + sz < SIZE_MODULUS then n + sz else n + sz - SIZE_MODULUS);
    if Wrap(newsize - n) < sz {
      newsize := Wrap(n + sz);
    }
    WrapIs(newsize - n, if newsize >= n then newsize - n else newsize - n + SIZE_MODULUS);
    ok := !(newsize < n || Wrap(newsize - n) < sz);
  }

  /** Newly allocated storage. */
  method AnyString(length: nat) returns (s: string)
    ensures |s| == length
  {
    var filler: char := *;
    s := seq(length, i => filler);
  }

  /** A request that would fit the type is refused: 2^63 bytes used of 2^63 + 1, two more wanted. */
  lemma RefusedThoughRepresentable()
    ensures var n, size := 0x8000_0000_0000_0000, 0x8000_0000_0000_0001;
            n + 2 < SIZE_MODULUS && !Growable(size, n, 2)
  {
  }

  class Buffer {
    /** The initial storage size, LUAL_BUFFERSIZE. */
    const initial: SizeT
    /** The allocator refuses blocks larger than this. */
    const limit: nat
    /** `B->b`: the storage, of which the first `n` characters are in use. */
    var b: string
    var size: SizeT
    var n: SizeT
    /** Whether the storage is the box on the stack rather than the initial array. */
    var onStack: bool
    var stack: seq<Slot>

    ghost predicate Valid()
      reads this
    {
      n <= size == |b|
    }

    ghost function Contents(): string
      requires Valid()
      reads this
    {
      b[..n]
    }

    /** The stack is `base` with the buffer's box, if it has one, on top. */
    ghost predicate Over(base: seq<Slot>)
      reads this
    {
      stack == base + if onStack then [Box] else []
    }

    constructor (initial: SizeT, limit: nat, stack: seq<Slot>)
      ensures Valid() && Contents() == "" && Over(stack) && this.limit == limit && size == initial
    {
      this.initial, this.limit, size, n, onStack, this.stack := initial, limit, initial, 0, false, stack;
      b := seq(initial, i => ' ');
    }

    /** Makes room for `sz` more characters; false stands for either error. */
    method PrepBuffSize(sz: SizeT, ghost base: seq<Slot>) returns (ok: bool)
      requires Valid() && Over(base)
      modifies this
      ensures ok ==> Valid() && Over(base) && n == old(n) && Contents() == old(Contents()) && size >= n + sz
      ensures ok ==> (onStack <==> old(onStack) || old(size) - n < sz)
      ensures old(size) - old(n) >= sz ==> ok && size == old(size) && stack == old(stack)
      ensures old(size) - old(n) < sz ==>
        (ok <==> Growable(old(size), old(n), sz) && NewSize(old(size), old(n), sz) <= limit)
      ensures ok && old(size) - n < sz ==> size == NewSize(old(size), n, sz)
    {
      if size - n >= sz {
        return true;
      }
      var newsize;
      ok, newsize := GrownSize(size, n, sz);
      if !ok || newsize > limit {
        return false;
      }
      var grown: string := AnyString(newsize);
      var kept := if onStack && newsize >= size then size else n;
      if !onStack {
        stack := stack + [Box];
        onStack := true;
      }
      b := b[..kept] + grown[kept..];
      size := newsize;
    }

    method AddLString(s: string, ghost base: seq<Slot>) returns (ok: bool)
      requires Valid() && Over(base) && |s| < SIZE_MODULUS
      modifies this
      ensures ok ==> Valid() && Over(base) && Contents() == old(Contents()) + s
      ensures ok ==> (old(onStack) ==> onStack)
      ensures limit >= SIZE_MODULUS && 2 * (old(n) + |s|) <= SIZE_MODULUS ==> ok
    {
      if |s| > 0 {
        ok := PrepBuffSize(|s|, base);
        if !ok {
          return;
        }
        b := b[..n] + s + b[n + |s|..];
        n := n + |s|;
      }
      return true;
    }

    /** `luaL_addchar`. */
    method AddChar(c: char, ghost base: seq<Slot>) returns (ok: bool)
      requires Valid() && Over(base)
      modifies this
      ensures ok ==> Valid() && Over(base) && Contents() == old(Contents()) + [c]
      ensures limit >= SIZE_MODULUS && 2 * (old(n) + 1) <= SIZE_MODULUS ==> ok
    {
      if n >= size {
        ok := PrepBuffSize(1, base);
        if !ok {
          return;
        }
      }
      b := b[n := c];
      n := n + 1;
      return true;
    }

    /** `luaL_addvalue`: the value on top of the stack moves into the buffer, past the box if there is one;
        the box may also come into being above the value meanwhile. */
    method AddValue(ghost base: seq<Slot>) returns (ok: bool)
      requires Valid() && stack != [] && stack[|stack| - 1].Text? && |stack[|stack| - 1].s| < SIZE_MODULUS
      requires stack[..|stack| - 1] == base + if onStack then [Box] else []
      modifies this
      ensures ok ==> Valid() && Over(base) && Contents() == old(Contents()) + old(stack)[|old(stack)| - 1].s
      ensures limit >= SIZE_MODULUS && 2 * (old(n) + |old(stack)[|old(stack)| - 1].s|) <= SIZE_MODULUS ==> ok
    {
      var k := |stack|;
      var value := stack[k - 1];
      if onStack {
        stack := stack[..k - 2] + [value, stack[k - 2]];
        assert stack == (base + [value]) + [Box];
      } else {
        assert stack == base + [value];
      }
      ok := AddLString(value.s, base + [value]);
      if ok {
        k := |stack|;
        if onStack {
          stack := stack[..k - 2] + [stack[k - 1]];
        } else {
          stack := stack[..k - 1];
        }
      }
    }

    /** `luaL_pushresult`. */
    method PushResult(ghost base: seq<Slot>)
      requires Valid() && Over(base)
      modifies this
      ensures stack == base + [Text(old(Contents()))]
    {
      stack := stack + [Text(b[..n])];
      if onStack {
        var k := |stack|;
        stack := stack[..k - 2] + [stack[k - 1]];
      }
    }
  }

  /** A piece added in one of the three ways. */
  datatype Piece = Chars(s: string) | Char(c: char) | Pushed(s: string) {
    function Content(): string {
      match this
      case Chars(s) => s
      case Char(c) => [c]
      case Pushed(s) => s
    }
  }

  ghost function Concatenation(pieces: seq<Piece>): string
    decreases |pieces|
  {
    if pieces == [] then "" else Concatenation(pieces[..|pieces| - 1]) + pieces[|pieces| - 1].Content()
  }

  /** Concatenation respects the order of the pieces. */
  lemma {:induction false} ConcatenationAppend(a: seq<Piece>, b: seq<Piece>)
    ensures Concatenation(a + b) == Concatenation(a) + Concatenation(b)
    decreases |b|
  {
    hide Piece.Content;
    if b == [] {
      assert a + b == a;
    } else {
      var k, ab := |b| - 1, a + b;
      ConcatenationAppend(a, b[..k]);
      assert ab[..|ab| - 1] == a + b[..k] && ab[|ab| - 1] == b[k];
      var x, y, z := Concatenation(a), Concatenation(b[..k]), b[k].Content();
      assert x + y + z == x + (y + z);
    }
  }

  /** A piece on its own stands for its characters. */
  lemma OnePiece(s: string, c: char)
    ensures Concatenation([Chars(s)]) == s && Concatenation([Pushed(s)]) == s && Concatenation([Char(c)]) == [c]
  {
    assert [Chars(s)][..0] == [] && [Pushed(s)][..0] == [] && [Char(c)][..0] == [];
  }

  lemma {:induction false} PrefixIsShorter(pieces: seq<Piece>, i: nat)
    requires i <= |pieces|
    ensures |Concatenation(pieces[..i])| <= |Concatenation(pieces)|
    decreases |pieces|
  {
    if i < |pieces| {
      assert pieces[..|pieces| - 1][..i] == pieces[..i];
      PrefixIsShorter(pieces[..|pieces| - 1], i);
    } else {
      assert pieces[..i] == pieces;
    }
  }

  /** Any sequence of additions leaves, on the stack the buffer was started over, one string:
      the pieces in order. */
  method Build(initial: SizeT, limit: nat, base: seq<Slot>, pieces: seq<Piece>) returns (ok: bool, stack: seq<Slot>)
    requires forall i :: 0 <= i < |pieces| ==> |pieces[i].Content()| < SIZE_MODULUS
    ensures ok ==> stack == base + [Text(Concatenation(pieces))]
    ensures limit >= SIZE_MODULUS && 2 * |Concatenation(pieces)| <= SIZE_MODULUS ==> ok
  {
    var B := new Buffer(initial, limit, base);
    for i := 0 to |pieces|
      invariant B.limit == limit && B.Valid() && B.Over(base) && B.Contents() == Concatenation(pieces[..i])
    {
      assert pieces[..i + 1][..i] == pieces[..i];
      PrefixIsShorter(pieces, i + 1);
      match pieces[i] {
        case Chars(s) => ok := B.AddLString(s, base);
        case Char(c) => ok := B.AddChar(c, base);
        case Pushed(s) =>
          B.stack := B.stack + [Text(s)];
          ok := B.AddValue(base);
      }
      if !ok {
        return false, [];
      }
    }
    assert pieces[..|pieces|] == pieces;
    B.PushResult(base);
    return true, B.stack;
  }
}
