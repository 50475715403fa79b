/**
 The raw LZ4 decoder of the cartridge: Z80 code over one 64 KiB memory, with 8-bit lengths that
 carry into the high byte of a 16-bit count. The block format is that of the LZ4 Block Format
 Description, section "Compressed block format".
 */
module Lz4 {
  import opened Bytes
  import opened Sequences

  const MEMORY: nat := 0x1_0000

  /** What a 16-bit register holds of a position; the one behind the top of memory becomes zero. */
  function Register(position: nat): (r: nat)
    ensures r < MEMORY && (position < MEMORY ==> r == position)
  {
    position % 0x1_0000
  }

  // ---------------------------------------------------------------------------------------
  // The block format

  type nibble = x: int | 0 <= x < 0x10
  type Offset = x: int | 1 <= x < 0x1_0000 witness 1
  type MatchLength = x: int | 4 <= x witness 4

  /** Literals followed by a match: matchLength bytes starting offset bytes back. */
  datatype Sequence = Sequence(literals: seq<byte>, offset: Offset, matchLength: MatchLength)

  /** A block ends with literals only; the low half of its last token means nothing. */
  datatype Block = Block(sequences: seq<Sequence>, last: seq<byte>, spare: nibble)

  function Nibble(n: nat): nibble {
    if n < 15 then n else 15
  }

  /** The part of a length that does not fit into the token: a run of 255s and a smaller byte. */
  function Extension(rest: nat): seq<byte> {
    if rest < 255 then [rest] else [255] + Extension(rest - 255)
  }

  function MoreLength(n: nat): seq<byte> {
    if n < 15 then [] else Extension(n - 15)
  }

  function LiteralPart(literals: seq<byte>, low: nibble): seq<byte> {
    [Nibble(|literals|) * 0x10 + low] + MoreLength(|literals|) + literals
  }

  function MatchPart(s: Sequence): seq<byte> {
    [s.offset % 0x100, s.offset / 0x100] + MoreLength(s.matchLength - 4)
  }

  function Serialize(sequences: seq<Sequence>, last: seq<byte>, spare: nibble): seq<byte> {
    if sequences == [] then LiteralPart(last, spare)
    else
      var s := sequences[0];
      LiteralPart(s.literals, Nibble(s.matchLength - 4)) + MatchPart(s) + Serialize(sequences[1..], last, spare)
  }

  // ---------------------------------------------------------------------------------------
  // What a block expands to

  /** Append n bytes, each a copy of the one offset places back; the copies may feed on themselves. */
  function Repeat(out: seq<byte>, offset: nat, n: nat): (r: seq<byte>)
    requires 1 <= offset <= |out|
    ensures |r| == |out| + n && out <= r
    decreases n
  {
    if n == 0 then out else Repeat(out + [out[|out| - offset]], offset, n - 1)
  }

  /** Every match refers to output that is already there. */
  predicate Expandable(length: nat, sequences: seq<Sequence>)
    decreases |sequences|
  {
    sequences == [] ||
    (var s := sequences[0];
     s.offset <= length + |s.literals| &&
     Expandable(length + |s.literals| + s.matchLength, sequences[1..]))
  }

  function Expand(out: seq<byte>, sequences: seq<Sequence>, last: seq<byte>): (r: seq<byte>)
    requires Expandable(|out|, sequences)
    ensures out <= r
    decreases |sequences|
  {
    if sequences == [] then out + last
    else
      var s := sequences[0];
      Expand(Repeat(out + s.literals, s.offset, s.matchLength), sequences[1..], last)
  }

  /** What repetition means: every appended byte equals the one offset places before it. */
  lemma {:induction false} RepeatPeriod(out: seq<byte>, offset: nat, n: nat, i: nat)
    requires 1 <= offset <= |out| && i < n
    ensures Repeat(out, offset, n)[|out| + i] == Repeat(out, offset, n)[|out| + i - offset]
    decreases n
  {
    var next := out + [out[|out| - offset]];
    if i == 0 {
      assert next <= Repeat(out, offset, n);
      assert Repeat(out, offset, n)[|out|] == next[|out|];
      assert Repeat(out, offset, n)[|out| - offset] == next[|out| - offset];
    } else {
      RepeatPeriod(next, offset, n - 1, i - 1);
    }
  }

  // ---------------------------------------------------------------------------------------
  // Memory

  ghost predicate Holds(memory: seq<byte>, address: nat, data: seq<byte>) {
    address + |data| <= |memory| && memory[address..address + |data|] == data
  }

  /** Memory is the same outside the given range. */
  ghost predicate SameOutside(memory: seq<byte>, before: seq<byte>, from: nat, to: nat) {
    |memory| == |before| && forall i :: 0 <= i < |memory| && !(from <= i < to) ==> memory[i] == before[i]
  }

  /** A block copy that goes byte by byte, as LDIR does. */
  ghost function ForwardCopy(memory: seq<byte>, hl: nat, de: nat, n: nat): (r: seq<byte>)
    requires hl + n <= |memory| && de + n <= |memory|
    ensures |r| == |memory|
    decreases n
  {
    if n == 0 then memory else ForwardCopy(memory[de := memory[hl]], hl + 1, de + 1, n - 1)
  }

  /** The same on the 16-bit addresses of the processor, which wrap around. */
  ghost function WrappingCopy(memory: seq<byte>, hl: nat, de: nat, n: nat): (r: seq<byte>)
    requires |memory| == MEMORY && hl < MEMORY && de < MEMORY
    ensures |r| == MEMORY
    decreases n
  {
    if n == 0 then memory
    else WrappingCopy(memory[de := memory[hl]], (hl + 1) % MEMORY, (de + 1) % MEMORY, n - 1)
  }

  lemma {:induction false} NoWrap(memory: seq<byte>, hl: nat, de: nat, n: nat)
    requires |memory| == MEMORY && hl < MEMORY && de < MEMORY && hl + n <= MEMORY && de + n <= MEMORY
    ensures WrappingCopy(memory, hl, de, n) == ForwardCopy(memory, hl, de, n)
    decreases n
  {
    hide WrappingCopy;
    if n == 0 {
      CopyEnds(memory, hl, de);
    } else {
      CopyStep(memory, hl, de, n);
      var next := memory[de := memory[hl]];
      if n == 1 {
        CopyEnds(next, (hl + 1) % MEMORY, (de + 1) % MEMORY);
      } else {
        NoWrap(next, hl + 1, de + 1, n - 1);
      }
    }
  }

  /** LDIR: one byte at a time until BC, counted down from 65536 if it is zero, has come to zero. */
  method Ldir(mem: array<byte>, source: nat, target: nat, count: nat) returns (hl: nat, de: nat)
    requires mem.Length == MEMORY && source < MEMORY && target < MEMORY && count < 0x1_0000
    modifies mem
    ensures var n := if count == 0 then 0x1_0000 else count;
            && mem[..] == WrappingCopy(old(mem[..]), source, target, n)
            && hl == Register(source + n) && de == Register(target + n)
  {
    hide WrappingCopy, Register;
    var bc := count;
    hl, de := source, target;
    ghost var n := if count == 0 then 0x1_0000 else count;
    ghost var done := 0;
    FullCount(count);
    while true
      invariant 0 <= done < n && bc == Register(n - done)
      invariant hl == Register(source + done) && de == Register(target + done)
      invariant WrappingCopy(mem[..], hl, de, n - done) == WrappingCopy(old(mem[..]), source, target, n)
      decreases n - done
    {
      ghost var before := mem[..];
      CopyStep(before, hl, de, n - done);
      Advance(source + done);
      Advance(target + done);
      CountDown(n - done);
      mem[de] := mem[hl];
      assert mem[..] == before[de := before[hl]];
      hl, de, bc := (hl + 1) % 0x1_0000, (de + 1) % 0x1_0000, (bc + 0xffff) % 0x1_0000;
      done := done + 1;
      if bc == 0 {
        CopyEnds(mem[..], hl, de);
        break;
      }
    }
  }

  lemma CopyStep(memory: seq<byte>, hl: nat, de: nat, n: nat)
    requires |memory| == MEMORY && hl < MEMORY && de < MEMORY && n > 0
    ensures WrappingCopy(memory, hl, de, n) ==
            WrappingCopy(memory[de := memory[hl]], (hl + 1) % MEMORY, (de + 1) % MEMORY, n - 1)
  {
  }

  lemma CopyEnds(memory: seq<byte>, hl: nat, de: nat)
    requires |memory| == MEMORY && hl < MEMORY && de < MEMORY
    ensures WrappingCopy(memory, hl, de, 0) == memory
  {
  }

  lemma Advance(position: nat)
    ensures (Register(position) + 1) % 0x1_0000 == Register(position + 1)
  {
  }

  /** BC counts down from 65536 if it is zero at the beginning. */
  lemma FullCount(count: nat)
    requires count < 0x1_0000
    ensures count == Register(if count == 0 then 0x1_0000 else count)
  {
  }

  lemma CountDown(left: nat)
    requires 1 <= left <= 0x1_0000
    ensures (Register(left) + 0xffff) % 0x1_0000 == Register(left - 1)
    ensures Register(left - 1) == 0 ==> left == 1
  {
  }

  lemma HoldsFirst(memory: seq<byte>, at: nat, first: byte, rest: seq<byte>)
    requires at < |memory| && memory[at] == first && Holds(memory, at + 1, rest)
    ensures Holds(memory, at, [first] + rest)
  {
    assert memory[at..at + 1 + |rest|] == [memory[at]] + memory[at + 1..at + 1 + |rest|];
  }

  lemma SourceStays(memory: seq<byte>, hl: nat, de: nat, n: nat)
    requires 1 <= n && hl + n <= |memory| && de + n <= |memory| && (hl + n <= de || de + n <= hl)
    ensures memory[de := memory[hl]][hl + 1..hl + n] == memory[hl + 1..hl + n]
    ensures memory[hl..hl + n] == [memory[hl]] + memory[hl + 1..hl + n]
  {
  }

  lemma {:induction false} CopyApart(memory: seq<byte>, hl: nat, de: nat, n: nat)
    requires hl + n <= |memory| && de + n <= |memory|
    requires hl + n <= de || de + n <= hl
    ensures Holds(ForwardCopy(memory, hl, de, n), de, memory[hl..hl + n])
    ensures SameOutside(ForwardCopy(memory, hl, de, n), memory, de, de + n)
    decreases n
  {
    hide Holds;
    if n == 0 {
      NothingHeld(memory, de, memory[hl..hl]);
    } else {
      var next, rest := memory[de := memory[hl]], memory[hl + 1..hl + n];
      SourceStays(memory, hl, de, n);
      CopyApart(next, hl + 1, de + 1, n - 1);
      HoldsFirst(ForwardCopy(memory, hl, de, n), de, memory[hl], rest);
    }
  }

  /** Copying forward from offset bytes back repeats the output, overlap included. */
  lemma {:induction false} CopyOverlapping(memory: seq<byte>, base: nat, de: nat, offset: nat, n: nat)
    requires base + offset <= de && 1 <= offset && de + n <= |memory|
    ensures Holds(ForwardCopy(memory, de - offset, de, n), base, Repeat(memory[base..de], offset, n))
    ensures SameOutside(ForwardCopy(memory, de - offset, de, n), memory, de, de + n)
    decreases n
  {
    if n > 0 {
      var next := memory[de := memory[de - offset]];
      CopyOverlapping(next, base, de + 1, offset, n - 1);
      assert next[base..de + 1] == memory[base..de] + [memory[de - offset]];
    }
  }

  // ---------------------------------------------------------------------------------------
  // The decoder

  /** The loop that both lengths share: add bytes to A, carry into B, stop after a byte below 255. */
  method ReadExtension(mem: array<byte>, start: nat, a0: byte, ghost rest: nat) returns (hl: nat, a: byte, b: byte)
    requires mem.Length == MEMORY
    requires Holds(mem[..], start, Extension(rest)) && start + |Extension(rest)| < 0x1_0000
    requires a0 + rest < 0x1_0000
    ensures hl == start + |Extension(rest)|
    ensures b * 0x100 + a == a0 + rest
  {
    hide Holds, Extension;
    ghost var memory := mem[..];
    hl, a, b := start, a0, 0;
    ghost var left := rest;
    while true
      invariant Holds(memory, hl, Extension(left)) && hl + |Extension(left)| == start + |Extension(rest)|
      invariant b as nat * 0x100 + a + left == a0 + rest
      decreases left
    {
      ExtensionFirst(memory, hl, left);
      var c := mem[hl];
      hl := (hl + 1) % 0x1_0000;
      var sum := a as nat + c;
      a := sum % 0x100;
      if sum >= 0x100 {
        b := (b + 1) % 0x100;
      }
      c := (c as nat + 1) % 0x100;
      left := if left < 255 then 0 else left - 255;
      if c != 0 {
        break;
      }
    }
  }

  lemma ExtensionFirst(memory: seq<byte>, at: nat, rest: nat)
    requires Holds(memory, at, Extension(rest))
    ensures at < |memory|
    ensures if rest < 255 then memory[at] == rest && |Extension(rest)| == 1
            else memory[at] == 255 && |Extension(rest)| == 1 + |Extension(rest - 255)| &&
                 Holds(memory, at + 1, Extension(rest - 255))
  {
    var data := Extension(rest);
    assert memory[at] == memory[at..at + |data|][0];
    if rest >= 255 {
      assert memory[at..at + |data|][1..] == data[1..];
    }
  }

  lemma HoldsParts(memory: seq<byte>, at: nat, a: seq<byte>, b: seq<byte>)
    requires Holds(memory, at, a + b)
    ensures Holds(memory, at, a) && Holds(memory, at + |a|, b)
  {
    var data := memory[at..at + |a + b|];
    assert data[..|a|] == a && data[|a|..] == b;
    assert memory[at..at + |a|] == data[..|a|];
    assert memory[at + |a|..at + |a| + |b|] == data[|a|..];
  }

  /** Data outside the written range is still there. */
  lemma HoldsOutside(memory: seq<byte>, before: seq<byte>, from: nat, to: nat, at: nat, data: seq<byte>)
    requires SameOutside(memory, before, from, to) && Holds(before, at, data)
    requires at + |data| <= from || to <= at
    ensures Holds(memory, at, data)
  {
    assert memory[at..at + |data|] == before[at..at + |data|];
  }

  lemma SameOutsideTrans(c: seq<byte>, b: seq<byte>, a: seq<byte>, from: nat, mid: nat, to: nat)
    requires SameOutside(b, a, from, mid) && SameOutside(c, b, mid, to) && from <= mid <= to
    ensures SameOutside(c, a, from, to)
  {
  }

  lemma LiteralHeader(memory: seq<byte>, start: nat, n: nat, low: nibble)
    requires Holds(memory, start, [Nibble(n) * 0x10 + low] + MoreLength(n))
    ensures start < |memory| && memory[start] == Nibble(n) * 0x10 + low
    ensures n < 15 ==> MoreLength(n) == []
    ensures n >= 15 ==> MoreLength(n) == Extension(n - 15) && Holds(memory, start + 1, Extension(n - 15))
  {
    var head := [Nibble(n) * 0x10 + low];
    HoldsParts(memory, start, head, MoreLength(n));
    assert memory[start] == memory[start..start + 1][0];
  }

  /** The token and the length it announces. The code keeps the token in AF' while A counts. */
  method ReadLiteralLength(mem: array<byte>, start: nat, ghost n: nat, ghost low: nibble)
    returns (hl: nat, token: byte, count: nat)
    requires mem.Length == MEMORY && n < 0x1_0000
    requires Holds(mem[..], start, [Nibble(n) * 0x10 + low] + MoreLength(n))
    requires start + 1 + |MoreLength(n)| + n <= MEMORY
    ensures hl == Register(start + 1 + |MoreLength(n)|) && token == Nibble(n) * 0x10 + low && count == n
  {
    hide Holds, Extension, MoreLength;
    LiteralHeader(mem[..], start, n, low);
    token := mem[start];
    hl := (start + 1) % 0x1_0000;
    var a := token / 0x10;
    if a != 0x0f {
      return hl, token, a;
    }
    var b;
    hl, a, b := ReadExtension(mem, hl, a, n - 15);
    count := b as nat * 0x100 + a;
  }

  /** Token, literal length and literals; the registers may end up behind the top of memory. */
  method CopyLiteralPart(mem: array<byte>, start: nat, target: nat, ghost at: nat, ghost literals: seq<byte>, ghost low: nibble)
    returns (hl: nat, de: nat, token: byte)
    requires mem.Length == MEMORY && target == Register(at)
    requires Holds(mem[..], start, LiteralPart(literals, low))
    requires start + |LiteralPart(literals, low)| <= MEMORY && at + |literals| <= MEMORY
    requires start + |LiteralPart(literals, low)| <= at || at + |literals| <= start
    modifies mem
    ensures hl == Register(start + |LiteralPart(literals, low)|) && de == Register(at + |literals|) && token % 0x10 == low
    ensures Holds(mem[..], at, literals)
    ensures SameOutside(mem[..], old(mem[..]), at, at + |literals|)
  {
    hide Holds, Extension, MoreLength, ForwardCopy, WrappingCopy;
    HoldsParts(mem[..], start, [Nibble(|literals|) * 0x10 + low] + MoreLength(|literals|), literals);
    HoldsData(mem[..], start + 1 + |MoreLength(|literals|)|, literals);
    LiteralPlaces(start, at, literals, low);
    hide LiteralPart, Nibble;
    var count;
    hl, token, count := ReadLiteralLength(mem, start, |literals|, low);
    de := target;
    if token < 0x10 {
      NothingHeld(mem[..], at, literals);
      return;
    }
    hl, de := CopyLiterals(mem, hl, de, count, literals);
  }

  method CopyLiterals(mem: array<byte>, source: nat, target: nat, count: nat, ghost literals: seq<byte>)
    returns (hl: nat, de: nat)
    requires mem.Length == MEMORY && 1 <= |literals| == count < 0x1_0000 && Holds(mem[..], source, literals)
    requires source + count <= MEMORY && target + count <= MEMORY
    requires source + count <= target || target + count <= source
    modifies mem
    ensures hl == Register(source + count) && de == Register(target + count)
    ensures Holds(mem[..], target, literals) && SameOutside(mem[..], old(mem[..]), target, target + count)
  {
    hide WrappingCopy, ForwardCopy;
    NoWrap(mem[..], source, target, count);
    CopyApart(mem[..], source, target, count);
    hl, de := Ldir(mem, source, target, count);
  }

  /** A non-empty run of literals leaves room below the top of memory for where it starts. */
  lemma LiteralPlaces(start: nat, at: nat, literals: seq<byte>, low: nibble)
    requires start + |LiteralPart(literals, low)| <= MEMORY && at + |literals| <= MEMORY
    ensures |LiteralPart(literals, low)| == 1 + |MoreLength(|literals|)| + |literals|
    ensures literals != [] ==> start + 1 + |MoreLength(|literals|)| < MEMORY && at < MEMORY
    ensures Nibble(|literals|) * 0x10 + low < 0x10 <==> literals == []
  {
  }

  lemma HoldsData(memory: seq<byte>, at: nat, data: seq<byte>)
    requires Holds(memory, at, data)
    ensures at + |data| <= |memory| && memory[at..at + |data|] == data
  {
  }

  lemma NothingHeld(memory: seq<byte>, at: nat, data: seq<byte>)
    requires data == [] && at <= |memory|
    ensures Holds(memory, at, data)
  {
  }

  lemma MatchHeader(memory: seq<byte>, start: nat, s: Sequence)
    requires Holds(memory, start, MatchPart(s))
    ensures start + 1 < |memory| && memory[start] == s.offset % 0x100 && memory[start + 1] == s.offset / 0x100
    ensures s.matchLength < 19 ==> |MatchPart(s)| == 2
    ensures s.matchLength >= 19 ==>
      |MatchPart(s)| == 2 + |Extension(s.matchLength - 19)| && Holds(memory, start + 2, Extension(s.matchLength - 19))
  {
    HoldsParts(memory, start, [s.offset % 0x100, s.offset / 0x100], MoreLength(s.matchLength - 4));
    assert memory[start] == memory[start..start + 2][0] && memory[start + 1] == memory[start..start + 2][1];
  }

  /** Offset and match length; A starts at four, the shortest match. */
  method ReadMatchHeader(mem: array<byte>, start: nat, token: byte, ghost s: Sequence)
    returns (hl: nat, offset: nat, count: nat)
    requires mem.Length == MEMORY && token % 0x10 == Nibble(s.matchLength - 4)
    requires Holds(mem[..], start, MatchPart(s)) && start + |MatchPart(s)| < 0x1_0000
    requires s.matchLength < 0x1_0000
    ensures hl == start + |MatchPart(s)| && offset == s.offset && count == s.matchLength
  {
    hide Holds, Extension, MoreLength, MatchPart;
    MatchHeader(mem[..], start, s);
    var a, c := token % 0x10 + 4, mem[start];
    var b := mem[start + 1];
    offset := b as nat * 0x100 + c;
    hl := (start + 2) % 0x1_0000;
    if a != 0x13 {
      return hl, offset, a;
    }
    hl, a, b := ReadExtension(mem, hl, a, s.matchLength - 19);
    count := b as nat * 0x100 + a;
  }

  /** The match itself, copied from the output by subtracting the offset from DE. */
  method CopyMatchPart(mem: array<byte>, start: nat, target: nat, token: byte, ghost base: nat, ghost s: Sequence)
    returns (hl: nat, de: nat)
    requires mem.Length == MEMORY && token % 0x10 == Nibble(s.matchLength - 4)
    requires Holds(mem[..], start, MatchPart(s)) && start + |MatchPart(s)| < 0x1_0000
    requires base + s.offset <= target && target + s.matchLength <= MEMORY
    modifies mem
    ensures hl == start + |MatchPart(s)| && de == Register(target + s.matchLength)
    ensures Holds(mem[..], base, Repeat(old(mem[base..target]), s.offset, s.matchLength))
    ensures SameOutside(mem[..], old(mem[..]), target, target + s.matchLength)
  {
    hide Holds, Extension, MoreLength, MatchPart, ForwardCopy, WrappingCopy, Repeat;
    var offset, count, source;
    hl, offset, count := ReadMatchHeader(mem, start, token, s);
    var from := (target + 0x1_0000 - offset) % 0x1_0000;
    CopyOverlapping(mem[..], base, target, s.offset, s.matchLength);
    assert mem[..][base..target] == mem[base..target];
    NoWrap(mem[..], from, target, s.matchLength);
    source, de := Ldir(mem, from, target, count);
  }

  // ---------------------------------------------------------------------------------------
  // The whole block

  /** How far the decoder is: what is left to read, and what has been written. */
  ghost predicate Decoding(memory: seq<byte>, before: seq<byte>, end: nat, destination: nat, hl: nat, de: nat,
                           sequences: seq<Sequence>, last: seq<byte>, spare: nibble, total: seq<byte>) {
    && destination <= de <= |memory| == |before|
    && Holds(memory, hl, Serialize(sequences, last, spare))
    && hl + |Serialize(sequences, last, spare)| == end
    && Expandable(de - destination, sequences)
    && Expand(memory[destination..de], sequences, last) == total
    && SameOutside(memory, before, destination, de)
  }

  /** The literals the next token announces, and the low half of that token. */
  ghost function NextLiterals(sequences: seq<Sequence>, last: seq<byte>): seq<byte> {
    if sequences == [] then last else sequences[0].literals
  }

  ghost function NextLow(sequences: seq<Sequence>, spare: nibble): (low: nibble) {
    if sequences == [] then spare
    else Nibble(sequences[0].matchLength - 4)
  }

  /** What follows the literals in the block. */
  ghost function AfterLiterals(sequences: seq<Sequence>, last: seq<byte>, spare: nibble): seq<byte> {
    if sequences == [] then []
    else MatchPart(sequences[0]) + Serialize(sequences[1..], last, spare)
  }

  lemma SerializeSplits(sequences: seq<Sequence>, last: seq<byte>, spare: nibble)
    ensures Serialize(sequences, last, spare) ==
            LiteralPart(NextLiterals(sequences, last), NextLow(sequences, spare)) + AfterLiterals(sequences, last, spare)
  {
    if sequences == [] {
      All(LiteralPart(last, spare));
    } else {
      var s := sequences[0];
      Associative(LiteralPart(s.literals, Nibble(s.matchLength - 4)), MatchPart(s), Serialize(sequences[1..], last, spare));
    }
  }

  /** The output so far, with the next literals, is a beginning of the whole output. */
  lemma OutputGrows(out: seq<byte>, sequences: seq<Sequence>, last: seq<byte>)
    requires Expandable(|out|, sequences)
    ensures out + NextLiterals(sequences, last) <= Expand(out, sequences, last)
    ensures sequences != [] ==>
      |out| + |sequences[0].literals| + sequences[0].matchLength <= |Expand(out, sequences, last)|
  {
  }

  lemma LiteralsWritten(memory: seq<byte>, m0: seq<byte>, before: seq<byte>, destination: nat, de: nat, literals: seq<byte>)
    requires destination <= de && de + |literals| <= |m0| == |before|
    requires Holds(memory, de, literals) && SameOutside(memory, m0, de, de + |literals|)
    requires SameOutside(m0, before, destination, de)
    ensures memory[destination..de + |literals|] == m0[destination..de] + literals
    ensures SameOutside(memory, before, destination, de + |literals|)
  {
    assert memory[destination..de] == m0[destination..de];
    assert memory[destination..de + |literals|] == memory[destination..de] + memory[de..de + |literals|];
  }

  lemma AfterIsLong(left: seq<Sequence>, last: seq<byte>, spare: nibble)
    ensures if left == [] then AfterLiterals(left, last, spare) == []
            else |AfterLiterals(left, last, spare)| >= 2 &&
                 AfterLiterals(left, last, spare) == MatchPart(left[0]) + Serialize(left[1..], last, spare)
  {
  }

  lemma ExpandEnds(out: seq<byte>, left: seq<Sequence>, last: seq<byte>)
    requires Expandable(|out|, left)
    ensures left == [] ==> Expand(out, left, last) == out + last
    ensures left != [] ==>
      && left[0].offset <= |out| + |left[0].literals|
      && Expandable(|out| + |left[0].literals| + left[0].matchLength, left[1..])
      && Expand(out, left, last) ==
         Expand(Repeat(out + left[0].literals, left[0].offset, left[0].matchLength), left[1..], last)
  {
  }

  /** What the decoder may rely on before it reads the next token. */
  lemma LiteralsReady(memory: seq<byte>, before: seq<byte>, end: nat, destination: nat, hl: nat, de: nat,
                      left: seq<Sequence>, last: seq<byte>, spare: nibble, total: seq<byte>)
    requires Decoding(memory, before, end, destination, hl, de, left, last, spare, total)
    ensures destination <= de <= |memory|
    ensures var literals, low := NextLiterals(left, last), NextLow(left, spare);
            && Holds(memory, hl, LiteralPart(literals, low))
            && Holds(memory, hl + |LiteralPart(literals, low)|, AfterLiterals(left, last, spare))
            && hl + |LiteralPart(literals, low)| + |AfterLiterals(left, last, spare)| == end
            && de + |literals| <= destination + |total|
            && (left == [] ==> AfterLiterals(left, last, spare) == [] && total == memory[destination..de] + literals)
            && (left != [] ==>
                  && destination + left[0].offset <= de + |literals|
                  && |AfterLiterals(left, last, spare)| >= 2
                  && de + |literals| + left[0].matchLength <= destination + |total|)
  {
    hide Holds, LiteralPart, MatchPart, Serialize, Repeat, SameOutside, Expand, Expandable;
    SerializeSplits(left, last, spare);
    AfterIsLong(left, last, spare);
    ExpandEnds(memory[destination..de], left, last);
    HoldsParts(memory, hl, LiteralPart(NextLiterals(left, last), NextLow(left, spare)), AfterLiterals(left, last, spare));
    OutputGrows(memory[destination..de], left, last);
  }

  /** Between literals and match: the literals are written, the match header is next. */
  ghost predicate BeforeMatch(memory: seq<byte>, before: seq<byte>, end: nat, destination: nat, hl: nat, de: nat,
                              left: seq<Sequence>, last: seq<byte>, spare: nibble, total: seq<byte>) {
    && destination <= de <= |memory| == |before|
    && left != []
    && destination + left[0].offset <= de
    && de + left[0].matchLength <= destination + |total|
    && Holds(memory, hl, MatchPart(left[0]) + Serialize(left[1..], last, spare))
    && hl + |MatchPart(left[0])| + |Serialize(left[1..], last, spare)| == end
    && Expandable(de - destination + left[0].matchLength, left[1..])
    && Expand(Repeat(memory[destination..de], left[0].offset, left[0].matchLength), left[1..], last) == total
    && SameOutside(memory, before, destination, de)
  }

  lemma LiteralsDone(m0: seq<byte>, m1: seq<byte>, before: seq<byte>, end: nat, destination: nat,
                     hl0: nat, de0: nat, hl: nat, de: nat,
                     left: seq<Sequence>, last: seq<byte>, spare: nibble, total: seq<byte>)
    requires Decoding(m0, before, end, destination, hl0, de0, left, last, spare, total)
    requires |m1| == |m0| && de == de0 + |NextLiterals(left, last)| <= destination + |total|
    requires hl == hl0 + |LiteralPart(NextLiterals(left, last), NextLow(left, spare))|
    requires end <= destination || destination + |total| <= hl0
    requires Holds(m1, de0, NextLiterals(left, last))
    requires SameOutside(m1, m0, de0, de)
    ensures left == [] ==> hl == end && Holds(m1, destination, total) && SameOutside(m1, before, destination, de) &&
                           de == destination + |total|
    ensures left != [] ==> hl != end && BeforeMatch(m1, before, end, destination, hl, de, left, last, spare, total)
  {
    hide Holds, LiteralPart, MatchPart, Serialize, Repeat, SameOutside, Expand, Expandable, AfterLiterals;
    LiteralsReady(m0, before, end, destination, hl0, de0, left, last, spare, total);
    HoldsData(m1, de0, NextLiterals(left, last));
    LiteralsWritten(m1, m0, before, destination, de0, NextLiterals(left, last));
    HoldsOutside(m1, m0, de0, de, hl, AfterLiterals(left, last, spare));
    AfterIsLong(left, last, spare);
    ExpandEnds(m0[destination..de0], left, last);
    if left == [] {
      Finished(m1, destination, de, total);
    }
  }

  /** After the match, the decoder is at the next token. */
  lemma MatchDone(m1: seq<byte>, m2: seq<byte>, before: seq<byte>, end: nat, destination: nat,
                  hl: nat, de: nat, hl2: nat, de2: nat,
                  left: seq<Sequence>, last: seq<byte>, spare: nibble, total: seq<byte>)
    requires BeforeMatch(m1, before, end, destination, hl, de, left, last, spare, total)
    requires |m2| == |m1| && destination + |total| <= |m1|
    requires end <= destination || destination + |total| <= hl
    requires hl2 == hl + |MatchPart(left[0])| && de2 == de + left[0].matchLength
    requires Holds(m2, destination, Repeat(m1[destination..de], left[0].offset, left[0].matchLength))
    requires SameOutside(m2, m1, de, de2)
    ensures Decoding(m2, before, end, destination, hl2, de2, left[1..], last, spare, total)
  {
    hide Holds, MatchPart, Serialize, Repeat, SameOutside, Expand, Expandable;
    var tail := Serialize(left[1..], last, spare);
    HoldsParts(m1, hl, MatchPart(left[0]), tail);
    HoldsOutside(m2, m1, de, de2, hl2, tail);
    SameOutsideTrans(m2, m1, before, destination, de, de2);
    HoldsData(m2, destination, Repeat(m1[destination..de], left[0].offset, left[0].matchLength));
  }

  /**
   The decoder. Whatever well-formed block lies in memory, its expansion is written to the
   destination, nothing else changes, and decoding stops where the input ends.
   */
  method Decompress(mem: array<byte>, source: nat, destination: nat, size: nat, ghost block: Block)
    requires mem.Length == MEMORY && source < MEMORY && destination < MEMORY
    requires Expandable(0, block.sequences)
    requires var data, total := Serialize(block.sequences, block.last, block.spare), Expand([], block.sequences, block.last);
             && size == |data| && Holds(mem[..], source, data)
             && source + size <= MEMORY && destination + |total| <= MEMORY
             && (source + size <= destination || destination + |total| <= source)
    modifies mem
    ensures var total := Expand([], block.sequences, block.last);
            && Holds(mem[..], destination, total)
            && SameOutside(mem[..], old(mem[..]), destination, destination + |total|)
  {
    hide Holds, SameOutside, LiteralPart, MatchPart, Serialize, Expand, Expandable, Repeat, Decoding, BeforeMatch;
    var hl: nat, de: nat, done := source, destination, false;
    var ix := (hl + size) % 0x1_0000;
    ghost var before, end: nat, at: nat := mem[..], source + size, destination;
    ghost var left, total := block.sequences, Expand([], block.sequences, block.last);
    DecodingStarts(before, source, destination, block);
    while !done
      invariant !done ==> source <= hl < MEMORY && de == Register(at)
      invariant !done ==> Decoding(mem[..], before, end, destination, hl, at, left, block.last, block.spare, total)
      invariant done ==> Holds(mem[..], destination, total)
      invariant done ==> SameOutside(mem[..], before, destination, destination + |total|)
      decreases !done, |left|
    {
      var token;
      hl, de, token, done :=
        DecodeLiterals(mem, hl, de, ix, at, end, destination, left, block.last, block.spare, total, before);
      if !done {
        at := de + left[0].matchLength;
        hl, de := DecodeMatch(mem, hl, de, token, end, destination, left, block.last, block.spare, total, before);
        left := left[1..];
      }
    }
  }

  lemma DecodingStarts(memory: seq<byte>, source: nat, destination: nat, block: Block)
    requires |memory| == MEMORY && destination < MEMORY && Expandable(0, block.sequences)
    requires Holds(memory, source, Serialize(block.sequences, block.last, block.spare))
    ensures Decoding(memory, memory, source + |Serialize(block.sequences, block.last, block.spare)|, destination,
                     source, destination, block.sequences, block.last, block.spare, Expand([], block.sequences, block.last))
  {
    hide Holds, Serialize, Expand, Expandable;
    assert memory[destination..destination] == [];
  }

  /** Token and literals, then the end test. */
  method DecodeLiterals(mem: array<byte>, hl0: nat, de0: nat, ix: nat, ghost at: nat, ghost end: nat, ghost destination: nat,
                        ghost left: seq<Sequence>, ghost last: seq<byte>, ghost spare: nibble,
                        ghost total: seq<byte>, ghost before: seq<byte>)
    returns (hl: nat, de: nat, token: byte, done: bool)
    requires mem.Length == MEMORY && ix == Register(end) && end <= MEMORY && destination + |total| <= MEMORY
    requires end <= destination || destination + |total| <= hl0
    requires de0 == Register(at)
    requires Decoding(mem[..], before, end, destination, hl0, at, left, last, spare, total)
    modifies mem
    ensures done ==> Holds(mem[..], destination, total)
    ensures done ==> SameOutside(mem[..], before, destination, destination + |total|)
    ensures !done ==> left != [] && hl0 <= hl < MEMORY && token % 0x10 == NextLow(left, spare)
    ensures !done ==> BeforeMatch(mem[..], before, end, destination, hl, de, left, last, spare, total)
  {
    hide Register, Holds, SameOutside, LiteralPart, MatchPart, Serialize, Expand, Expandable, Repeat, Decoding, BeforeMatch;
    ghost var m0 := mem[..];
    ghost var literals, low := NextLiterals(left, last), NextLow(left, spare);
    ghost var hlAt, deAt := hl0 + |LiteralPart(literals, low)|, at + |literals|;
    LiteralsFit(m0, before, end, destination, hl0, at, left, last, spare, total);
    hl, de, token := CopyLiteralPart(mem, hl0, de0, at, literals, low);
    done := SameAddress(ix, hl);
    EndReached(end, hlAt);
    if left == [] {
      LiteralsFinish(m0, mem[..], before, end, destination, hl0, at, last, spare, total);
    } else {
      LiteralsLeadOn(m0, mem[..], before, end, destination, hl0, at, left, last, spare, total);
      RoomForMatch(mem[..], before, end, destination, hlAt, deAt, left, last, spare, total);
    }
  }

  lemma LiteralsFinish(m0: seq<byte>, m1: seq<byte>, before: seq<byte>, end: nat, destination: nat, hl0: nat, at: nat,
                       last: seq<byte>, spare: nibble, total: seq<byte>)
    requires Decoding(m0, before, end, destination, hl0, at, [], last, spare, total) && |m1| == |m0|
    requires destination + |total| <= MEMORY && (end <= destination || destination + |total| <= hl0)
    requires Holds(m1, at, last) && SameOutside(m1, m0, at, at + |last|)
    ensures Holds(m1, destination, total) && SameOutside(m1, before, destination, destination + |total|)
  {
    hide Holds, SameOutside, LiteralPart, MatchPart, Serialize, Expand, Expandable, Repeat, Decoding, BeforeMatch;
    LiteralsReady(m0, before, end, destination, hl0, at, [], last, spare, total);
    var hlAt := hl0 + |LiteralPart(last, spare)|;
    LiteralsDone(m0, m1, before, end, destination, hl0, at, hlAt, at + |last|, [], last, spare, total);
  }

  lemma LiteralsLeadOn(m0: seq<byte>, m1: seq<byte>, before: seq<byte>, end: nat, destination: nat, hl0: nat, at: nat,
                       left: seq<Sequence>, last: seq<byte>, spare: nibble, total: seq<byte>)
    requires Decoding(m0, before, end, destination, hl0, at, left, last, spare, total) && |m1| == |m0| && left != []
    requires end <= destination || destination + |total| <= hl0
    requires Holds(m1, at, NextLiterals(left, last)) && SameOutside(m1, m0, at, at + |NextLiterals(left, last)|)
    ensures BeforeMatch(m1, before, end, destination, hl0 + |LiteralPart(NextLiterals(left, last), NextLow(left, spare))|,
                        at + |NextLiterals(left, last)|, left, last, spare, total)
  {
    hide Holds, SameOutside, LiteralPart, MatchPart, Serialize, Expand, Expandable, Repeat, Decoding, BeforeMatch;
    LiteralsReady(m0, before, end, destination, hl0, at, left, last, spare, total);
    LiteralsDone(m0, m1, before, end, destination, hl0, at, hl0 + |LiteralPart(NextLiterals(left, last), NextLow(left, spare))|,
                 at + |NextLiterals(left, last)|, left, last, spare, total);
  }

  /** cp l, cp h: two registers compared byte by byte. */
  method SameAddress(ix: nat, hl: nat) returns (same: bool)
    requires ix < MEMORY && hl < MEMORY
    ensures same <==> ix == hl
  {
    same := ix % 0x100 == hl % 0x100 && ix / 0x100 == hl / 0x100;
  }

  lemma EndReached(end: nat, at: nat)
    requires 1 <= at <= end <= MEMORY
    ensures Register(end) == Register(at) <==> at == end
  {
  }

  lemma LiteralsFit(memory: seq<byte>, before: seq<byte>, end: nat, destination: nat, hl: nat, de: nat,
                    left: seq<Sequence>, last: seq<byte>, spare: nibble, total: seq<byte>)
    requires Decoding(memory, before, end, destination, hl, de, left, last, spare, total)
    requires end <= MEMORY && destination + |total| <= MEMORY
    requires end <= destination || destination + |total| <= hl
    ensures var literals, low := NextLiterals(left, last), NextLow(left, spare);
            && Holds(memory, hl, LiteralPart(literals, low))
            && 1 <= hl + |LiteralPart(literals, low)| <= end && de + |literals| <= destination + |total|
            && (hl + |LiteralPart(literals, low)| <= de || de + |literals| <= hl)
            && (left == [] <==> hl + |LiteralPart(literals, low)| == end)
            && (left == [] ==> literals == last && low == spare)
  {
    hide Register, Holds, SameOutside, LiteralPart, MatchPart, Serialize, Expand, Expandable, Repeat, Decoding, BeforeMatch;
    LiteralsReady(memory, before, end, destination, hl, de, left, last, spare, total);
    PartIsLong(NextLiterals(left, last), NextLow(left, spare));
  }

  lemma PartIsLong(literals: seq<byte>, low: nibble)
    ensures |LiteralPart(literals, low)| >= 1
  {
  }

  /** Before a match, neither position is behind the top of memory. */
  lemma RoomForMatch(memory: seq<byte>, before: seq<byte>, end: nat, destination: nat, hl: nat, de: nat,
                     left: seq<Sequence>, last: seq<byte>, spare: nibble, total: seq<byte>)
    requires BeforeMatch(memory, before, end, destination, hl, de, left, last, spare, total)
    requires end <= MEMORY && destination + |total| <= MEMORY
    ensures hl < end && de < MEMORY
  {
  }

  method DecodeMatch(mem: array<byte>, hl0: nat, de0: nat, token: byte, ghost end: nat, ghost destination: nat,
                     ghost left: seq<Sequence>, ghost last: seq<byte>, ghost spare: nibble,
                     ghost total: seq<byte>, ghost before: seq<byte>)
    returns (hl: nat, de: nat)
    requires mem.Length == MEMORY && end <= MEMORY && destination + |total| <= MEMORY
    requires end <= destination || destination + |total| <= hl0
    requires BeforeMatch(mem[..], before, end, destination, hl0, de0, left, last, spare, total)
    requires token % 0x10 == NextLow(left, spare)
    modifies mem
    ensures hl0 <= hl < MEMORY && de == Register(de0 + left[0].matchLength)
    ensures Decoding(mem[..], before, end, destination, hl, de0 + left[0].matchLength, left[1..], last, spare, total)
  {
    hide Register, Holds, SameOutside, LiteralPart, MatchPart, Serialize, Expand, Expandable, Repeat, Decoding, BeforeMatch;
    ghost var m1 := mem[..];
    MatchFits(m1, before, end, destination, hl0, de0, left, last, spare, total);
    hl, de := CopyMatchPart(mem, hl0, de0, token, destination, left[0]);
    assert old(mem[destination..de0]) == m1[destination..de0];
    MatchDone(m1, mem[..], before, end, destination, hl0, de0, hl, de0 + left[0].matchLength, left, last, spare, total);
  }

  /** Another token follows every match, and its source lies in the output. */
  lemma MatchFits(memory: seq<byte>, before: seq<byte>, end: nat, destination: nat, hl: nat, de: nat,
                  left: seq<Sequence>, last: seq<byte>, spare: nibble, total: seq<byte>)
    requires BeforeMatch(memory, before, end, destination, hl, de, left, last, spare, total)
    ensures left != [] && NextLow(left, spare) == Nibble(left[0].matchLength - 4)
    ensures Holds(memory, hl, MatchPart(left[0])) && hl + |MatchPart(left[0])| < end
    ensures destination + left[0].offset <= de <= |memory| && de + left[0].matchLength <= destination + |total|
  {
    SerializeSplits(left[1..], last, spare);
    PartIsLong(NextLiterals(left[1..], last), NextLow(left[1..], spare));
    hide Holds, MatchPart, Serialize, Expand, Expandable, Repeat, SameOutside;
    HoldsParts(memory, hl, MatchPart(left[0]), Serialize(left[1..], last, spare));
  }

  lemma Finished(memory: seq<byte>, destination: nat, de: nat, total: seq<byte>)
    requires destination <= de <= |memory| && memory[destination..de] == total
    ensures Holds(memory, destination, total) && de == destination + |total|
  {
  }
}
