/** The inflater: bit reader, tree builder, symbol decoder and block loops of src/tinflate.c. */
module Tinflate {
  import opened Bits
  import opened BitOps
  import opened Huffman
  import opened Deflate
  import opened Decoder
  import opened Options
  import opened Tables
  import Inflation
  import Overrun

  /** The code lengths `lens` are stored from place `from` on. */
  ghost predicate Stores(a: array<nat>, from: nat, lens: Lengths)
    reads a
  {
    from + |lens| <= a.Length && forall i :: 0 <= i < |lens| ==> a[from + i] == lens[i]
  }

  /** A Huffman tree as counts per length and symbols sorted by code. */
  class Tree {
    const counts: array<nat>
    const symbols: array<nat>
    var maxSym: int

    constructor ()
      ensures Shape() && fresh(counts) && fresh(symbols)
    {
      counts := new nat[16];
      symbols := new nat[288];
      maxSym := -1;
    }

    ghost predicate Shape() {
      counts.Length == 16 && symbols.Length == 288 && counts != symbols
    }

    /** The tree decodes the code of `a`. */
    ghost predicate Holds(a: Alphabet)
      reads this, counts, symbols
    {
      && Shape() && maxSym == a.maxSym
      && (forall l :: 0 <= l < 16 ==> counts[l] == Count(a.lens, l))
      && Sorted(a.lens, symbols[..])
    }

    /**
     * Builds the tree of the `num` code lengths at `from`. It succeeds exactly on the lists that may
     * be sent, and then holds the code that the list stands for.
     */
    method Build(lengths: array<nat>, from: nat, num: nat, ghost lens: Lengths) returns (res: Status)
      requires Shape() && lengths != counts && lengths != symbols
      requires num == |lens| <= 288 && Stores(lengths, from, lens)
      modifies this, counts, symbols
      ensures res == if Acceptable(lens) then Ok else DataError
      ensures res == Ok ==> Holds(Decoding(lens))
      ensures maxSym == MaxSym(lens)
    {
      hide Acceptable, Effective, Sorted, TwoCodes;
      CountLengths(lengths, from, num, lens);
      var offs := new nat[16];
      var totals := Offsets(offs, lens);
      if totals.None? {
        return DataError;
      }
      BuildDecision(lens);
      var available, codes := totals.value.0, totals.value.1;
      if (codes > 1 && available > 0) || (codes == 1 && counts[1] != 1) {
        return DataError;
      }
      Fill(lengths, from, num, offs, lens);
      if codes == 1 {
        SingleSlot(lens, symbols[..]);
        EffectiveShape(lens);
        assert forall l :: 0 <= l < 16 ==> counts[l] == if l == 1 then 1 else 0;
        counts[1] := 2;
        symbols[1] := maxSym + 1;
        TwoCodesTree(Effective(lens), MaxSym(lens), symbols[..]);
        assert forall l :: 0 <= l < 16 ==> counts[l] == if l == 1 then 2 else 0;
      }
      assert Holds(Decoding(lens));
      return Ok;
    }

    /** Counts the codes of each length and finds the largest symbol that has one. */
    method CountLengths(lengths: array<nat>, from: nat, num: nat, ghost lens: Lengths)
      requires Shape() && lengths != counts && num == |lens| && Stores(lengths, from, lens)
      modifies this, counts
      ensures maxSym == MaxSym(lens)
      ensures forall l :: 0 <= l < 16 ==> counts[l] == Count(lens, l)
    {
      for i := 0 to 16
        invariant forall l :: 0 <= l < i ==> counts[l] == 0
      {
        counts[i] := 0;
      }
      maxSym := -1;
      for i := 0 to num
        invariant Stores(lengths, from, lens)
        invariant counts[0] == 0
        invariant forall l :: 1 <= l < 16 ==> counts[l] == CountTo(lens, i, l)
        invariant maxSym == MaxSymTo(lens, i)
      {
        assert lengths[from + i] == lens[i];
        if lengths[from + i] != 0 {
          maxSym := i;
          counts[lengths[from + i]] := counts[lengths[from + i]] + 1;
        }
      }
    }

    /** The first table slot of each length; nothing when some length has too many codes. */
    method Offsets(offs: array<nat>, ghost lens: Lengths) returns (r: Option<(nat, nat)>)
      requires Shape() && offs.Length == 16 && offs != counts
      requires forall l :: 0 <= l < 16 ==> counts[l] == Count(lens, l)
      modifies offs
      ensures r.None? ==> !Acceptable(lens)
      ensures r.Some? ==> r.value == (Avail(lens, 16), Shorter(lens, 16))
      ensures r.Some? ==> forall l :: 0 <= l < 16 ==> offs[l] == Shorter(lens, l)
    {
      hide Acceptable, CountTo, Effective;
      var available, numCodes := 1, 0;
      for i := 0 to 16
        invariant available >= 0 && available == Avail(lens, i) && numCodes == Shorter(lens, i)
        invariant forall l :: 0 <= l < i ==> offs[l] == Shorter(lens, l)
      {
        var used := counts[i];
        if used > available {
          Overdrawn(lens, i);
          return None;
        }
        available := 2 * (available - used);
        offs[i] := numCodes;
        numCodes := numCodes + used;
      }
      return Some((available, numCodes));
    }

    /** Distributes the used symbols to their slots. */
    method Fill(lengths: array<nat>, from: nat, num: nat, offs: array<nat>, ghost lens: Lengths)
      requires Shape() && lengths != symbols && offs != symbols && offs != lengths && offs.Length == 16
      requires num == |lens| <= 288 && Stores(lengths, from, lens)
      requires forall l :: 0 <= l < 16 ==> offs[l] == Shorter(lens, l)
      modifies symbols, offs
      ensures Sorted(lens, symbols[..])
    {
      hide TableAt;
      for i := 0 to num
        invariant Stores(lengths, from, lens)
        invariant forall l :: 1 <= l < 16 ==> offs[l] == Shorter(lens, l) + CountTo(lens, i, l)
        invariant forall s :: 0 <= s < i && HasCode(lens, s) ==> TableAt(lens, symbols[..], s)
      {
        var l := lengths[from + i];
        assert l == lens[i];
        if l != 0 {
          SlotBound(lens, i);
          FillStep(lens, symbols[..], i);
          ghost var before := symbols[..];
          symbols[offs[l]] := i;
          assert symbols[..] == before[Slot(lens, i) := i];
          offs[l] := offs[l] + 1;
        }
      }
    }

    /** The fixed literal and length tree, written out. */
    method FillFixedLiterals()
      requires Shape()
      modifies this, counts, symbols
      ensures maxSym == 285
      ensures forall l :: 0 <= l < 16 ==> counts[l] == FixedLiteralCount(l)
      ensures forall i :: 0 <= i < 288 ==> symbols[i] == FixedLiteralSymbol(i)
    {
      for i := 0 to 16
        invariant forall l :: 0 <= l < i ==> counts[l] == 0
      {
        counts[i] := 0;
      }
      counts[7], counts[8], counts[9] := 24, 152, 112;
      for i := 0 to 24
        invariant forall k :: 0 <= k < i ==> symbols[k] == FixedLiteralSymbol(k)
        invariant forall l :: 0 <= l < 16 ==> counts[l] == FixedLiteralCount(l)
      {
        symbols[i] := 256 + i;
      }
      for i := 0 to 144
        invariant forall k :: 0 <= k < 24 + i ==> symbols[k] == FixedLiteralSymbol(k)
        invariant forall l :: 0 <= l < 16 ==> counts[l] == FixedLiteralCount(l)
      {
        symbols[24 + i] := i;
      }
      for i := 0 to 8
        invariant forall k :: 0 <= k < 168 + i ==> symbols[k] == FixedLiteralSymbol(k)
        invariant forall l :: 0 <= l < 16 ==> counts[l] == FixedLiteralCount(l)
      {
        symbols[24 + 144 + i] := 280 + i;
      }
      for i := 0 to 112
        invariant forall k :: 0 <= k < 176 + i ==> symbols[k] == FixedLiteralSymbol(k)
        invariant forall l :: 0 <= l < 16 ==> counts[l] == FixedLiteralCount(l)
      {
        symbols[24 + 144 + 8 + i] := 144 + i;
      }
      maxSym := 285;
    }

    /** The fixed distance tree, written out. */
    method FillFixedDistances()
      requires Shape()
      modifies this, counts, symbols
      ensures maxSym == 29
      ensures forall l :: 0 <= l < 16 ==> counts[l] == if l == 5 then 32 else 0
      ensures forall i :: 0 <= i < 32 ==> symbols[i] == i
    {
      for i := 0 to 16
        invariant forall l :: 0 <= l < i ==> counts[l] == 0
      {
        counts[i] := 0;
      }
      counts[5] := 32;
      for i := 0 to 32
        invariant forall k :: 0 <= k < i ==> symbols[k] == k
        invariant forall l :: 0 <= l < 16 ==> counts[l] == if l == 5 then 32 else 0
      {
        symbols[i] := i;
      }
      maxSym := 29;
    }
  }

  /** Putting symbol `i` into its slot keeps the slots of the symbols below it. */
  lemma FillStep(lens: Lengths, table: seq<nat>, i: nat)
    requires HasCode(lens, i) && Slot(lens, i) < |table|
    requires forall s :: 0 <= s < i && HasCode(lens, s) ==> TableAt(lens, table, s)
    ensures forall s :: 0 <= s <= i && HasCode(lens, s) ==> TableAt(lens, table[Slot(lens, i) := i], s)
  {
    hide Slot;
    forall s | 0 <= s <= i && HasCode(lens, s) ensures TableAt(lens, table[Slot(lens, i) := i], s) {
      if s < i {
        assert TableAt(lens, table, s);
        SlotOrder(lens, s, i);
        SlotOrder(lens, i, s);
      }
    }
  }

  /** The state of a running decompression. */
  class Inflater {
    const src: seq<Byte>
    var source: nat
    var tag: nat
    var bitcount: nat
    var overflow: bool
    const dest: array<Byte>
    const destEnd: nat
    var destPos: nat
    const ltree: Tree
    const dtree: Tree
    ghost var cursor: nat  // the position of the next unread bit

    constructor (dest: array<Byte>, destLen: nat, src: seq<Byte>)
      requires destLen <= dest.Length
      ensures Ready() && Room() && cursor == 0 && destPos == 0 && !overflow
      ensures this.src == src && this.dest == dest && destEnd == destLen
      ensures fresh(Trees())
    {
      this.src := src;
      source, tag, bitcount, overflow := 0, 0, 0, false;
      this.dest, destEnd, destPos := dest, destLen, 0;
      ltree := new Tree();
      dtree := new Tree();
      cursor := 0;
    }

    /** The objects the two trees live in. */
    ghost function Trees(): set<object> {
      {ltree, ltree.counts, ltree.symbols, dtree, dtree.counts, dtree.symbols}
    }

    ghost predicate Room()
      reads this
    {
      && destPos <= destEnd <= dest.Length
      && ltree.Shape() && dtree.Shape() && ltree != dtree && dest !in Trees()
      && {ltree.counts, ltree.symbols} !! {dtree.counts, dtree.symbols}
    }

    /**
     * The reader holds the `bitcount` bits from the cursor on in `tag`, and `source` is where the
     * bits after them begin; bytes past the end count as zeros and set the overflow flag.
     */
    ghost predicate Reader()
      reads this`cursor, this`bitcount, this`source, this`tag, this`overflow
    {
      && (cursor + bitcount) % 8 == 0
      && source == Min((cursor + bitcount) / 8, |src|)
      && (overflow <==> (cursor + bitcount) / 8 > |src|)
      && tag == Field(src, cursor, bitcount)
    }

    /** Between reads less than a byte is held. */
    ghost predicate Ready()
      reads this`cursor, this`bitcount, this`source, this`tag, this`overflow
    {
      Reader() && bitcount < 8
    }

    /** The overflow flag says that a bit past the end has been read. */
    lemma OverflowIff()
      requires Ready()
      ensures overflow <==> cursor > 8 * |src|
    {
    }

    /** The bits held once there are `num`, whole bytes being read. */
    static function Held(bits: nat, num: nat): nat {
      if bits >= num then bits else bits + 8 * ((num - bits + 7) / 8)
    }

    static lemma HeldStep(bits: nat, num: nat)
      ensures bits < num ==> Held(bits + 8, num) == Held(bits, num) >= bits + 8
      ensures bits <= Held(bits, num) && (bits >= num ==> Held(bits, num) == bits)
    {
    }

    /** Reads one more byte, or zeros past the end. */
    method RefillOne()
      requires Reader() && bitcount <= 24
      modifies this`source, this`tag, this`bitcount, this`overflow
      ensures Reader() && bitcount == old(bitcount) + 8
    {
      hide Field, Pow2, ShiftLeft, Or;
      RefillByte(src, cursor, bitcount);
      if source != |src| {
        tag := Or(tag, ShiftLeft(src[source], bitcount));
        source := source + 1;
      } else {
        overflow := true;
      }
      bitcount := bitcount + 8;
    }

    /** Reads bytes until `num` bits are held, which must not be more than 32. */
    method Refill(num: nat)
      requires Reader() && num <= 32 && Held(bitcount, num) <= 32
      modifies this`source, this`tag, this`bitcount, this`overflow
      ensures Reader() && bitcount == Held(old(bitcount), num) && num <= bitcount <= 32 && tag < Pow2(32)
    {
      hide Field, Pow2, Held;
      HeldStep(bitcount, num);
      while bitcount < num
        invariant Reader() && bitcount <= 32 && Held(bitcount, num) == Held(old(bitcount), num)
      {
        HeldStep(bitcount, num);
        RefillOne();
      }
      HeldStep(bitcount, num);
      FieldBound(src, cursor, bitcount);
      Pow2Mono(bitcount, 32);
    }

    method GetBitsNoRefill(num: nat) returns (bits: nat)
      requires Reader() && num <= bitcount
      modifies this`tag, this`bitcount, this`cursor
      ensures Reader() && bits == Field(src, old(cursor), num)
      ensures cursor == old(cursor) + num && bitcount == old(bitcount) - num
    {
      AndMask(tag, num);
      ShiftRightDivides(tag, num);
      FieldTakeDrop(src, cursor, num, bitcount - num);
      bits := And(tag, Pow2(num) - 1);
      tag := ShiftRight(tag, num);
      bitcount := bitcount - num;
      cursor := cursor + num;
    }

    /** Reads the next `num` bits as a data field. */
    method GetBits(num: nat) returns (bits: nat)
      requires Ready() && num <= 32 && (num <= 25 || Held(bitcount, num) <= 32)
      modifies this`source, this`tag, this`bitcount, this`overflow, this`cursor
      ensures Ready() && bits == Field(src, old(cursor), num) && cursor == old(cursor) + num
    {
      Refill(num);
      bits := GetBitsNoRefill(num);
    }

    method GetBitsBase(num: nat, base: nat) returns (v: nat)
      requires Ready() && num <= 32 && (num <= 25 || Held(bitcount, num) <= 32)
      modifies this`source, this`tag, this`bitcount, this`overflow, this`cursor
      ensures Ready() && v == base + Field(src, old(cursor), num) && cursor == old(cursor) + num
    {
      if num != 0 {
        v := GetBits(num);
        v := base + v;
      } else {
        v := base;
      }
    }

    /**
     * Reads one symbol, bit by bit. Whatever the bits are, reading stops within 15 of them, and
     * what was read is exactly the code of the symbol returned.
     */
    method DecodeSymbol(t: Tree, ghost a: Alphabet) returns (sym: nat)
      requires Ready() && t.Holds(a) && Complete(a.lens)
      modifies this`source, this`tag, this`bitcount, this`overflow, this`cursor
      ensures Ready() && CodeAt(src, old(cursor), a.lens, sym)
      ensures cursor == old(cursor) + a.lens[sym]
      ensures Symbol(src, old(cursor), a.lens) == Some(sym)
    {
      hide CodeBetween, FirstCode, Shorter, Complete, Field;
      ghost var lens, cur := a.lens, cursor;
      FirstOne(lens);
      DecodeStart(src, cur, lens);
      var base, offs := 0, 0;
      var len := 1;
      while true
        invariant 1 <= len <= 16 && Ready() && cursor == cur + len - 1
        invariant base == Shorter(lens, len)
        invariant offs == CodeBetween(src, cur, cursor) - FirstCode(lens, len - 1) - Count(lens, len - 1)
        decreases 16 - len
      {
        var bit := GetBits(1);
        DecodeStep(src, cur, lens, len, offs);
        offs := 2 * offs + bit;
        if offs < t.counts[len] {
          break;
        }
        base := base + t.counts[len];
        offs := offs - t.counts[len];
        len := len + 1;
      }
      SymbolInTable(src, cur, lens, t.symbols[..], len, offs);
      sym := t.symbols[base + offs];
    }

    // ---- block data

    /** The call ended as `run` says, with its output in front of the destination. */
    ghost predicate Ends(res: Status, run: Run)
      reads this, dest
    {
      && destPos <= dest.Length && dest[..destPos] == run.out
      && (run.Done? ==> res == Ok && cursor == run.cur)
      && (run.Fail? ==> res == run.status != Ok)
    }

    /** The output so far. */
    ghost function Out(): (r: seq<Byte>)
      requires destPos <= dest.Length
      reads this, dest
    {
      dest[..destPos]
    }

    /** Copies `length` bytes from `offs` back, front to back. */
    method CopyMatch(length: nat, offs: nat)
      requires Room() && 1 <= offs <= destPos && length <= destEnd - destPos
      modifies this`destPos, dest
      ensures Room() && Out() == Extend(old(Out()), length, offs)
      ensures forall i :: 0 <= i < old(destPos) || destPos <= i < dest.Length ==> dest[i] == old(dest[i])
    {
      ghost var out := Out();
      for i := 0 to length
        invariant destPos == old(destPos)
        invariant dest[..destPos + i] == Extend(out, i, offs)
        invariant forall k :: 0 <= k < destPos || destPos + i <= k < dest.Length ==> dest[k] == old(dest[k])
      {
        ExtendSnoc(out, i, offs);
        ghost var r := dest[..destPos + i];
        dest[destPos + i] := dest[destPos + i - offs];
        assert dest[..destPos + i + 1] == r + [r[|r| - offs]];
      }
      destPos := destPos + length;
    }

    /** Reads the rest of a match, after its length code `lc`. */
    method ReadLengthDistance(lc: nat, ghost d: Alphabet)
      returns (ok: bool, length: nat, offs: nat, ghost item: Item)
      requires Ready() && dtree.Holds(d) && Complete(d.lens) && lc <= 28
      modifies this`source, this`tag, this`bitcount, this`overflow, this`cursor
      ensures Ready() && item == ReadMatch(src, old(cursor), lc, d) && ok == item.Tok?
      ensures ok ==> length == item.t.Length() && offs == item.t.Distance() && cursor == item.cur
    {
      hide LengthBitsTable, LengthBaseTable, DistBitsTable, DistBaseTable;
      hide Symbol, Window, Field, CodeAt, Complete, Sorted, Count, Inflater.Reader, Inflater.Ready;
      item := ReadMatch(src, cursor, lc, d);
      offs := 0;
      FieldValue(src, cursor, LengthBits(lc));
      LengthTablesAgree(lc);
      length := GetBitsBase(LengthBitsTable()[lc], LengthBaseTable()[lc]);
      var dist := DecodeSymbol(dtree, d);
      if dist > dtree.maxSym || dist > 29 {
        ok := false;
        return;
      }
      FieldValue(src, cursor, DistBits(dist));
      DistTablesAgree(dist);
      offs := GetBitsBase(DistBitsTable()[dist], DistBaseTable()[dist]);
      ok := true;
    }

    /** The output is that of `a`, and `res` says whether there was room for it. */
    ghost predicate Wrote(res: Status, a: Run)
      reads this`destPos, dest
    {
      destPos <= dest.Length && dest[..destPos] == a.out && res == if a.Done? then Ok else a.status
    }

    /** Puts a literal into the destination. */
    method PutLiteral(b: Byte) returns (res: Status)
      requires Room()
      modifies this`destPos, dest
      ensures Room() && old(destPos) <= destPos && Wrote(res, Append(old(Out()), destEnd, Literal(b)))
      ensures forall i :: 0 <= i < old(destPos) || destPos <= i < dest.Length ==> dest[i] == old(dest[i])
    {
      if destPos == destEnd {
        return BufError;
      }
      dest[destPos] := b;
      destPos := destPos + 1;
      return Ok;
    }

    /** Puts a match into the destination, unless it reaches too far back or there is no room. */
    method PutMatch(length: nat, offs: nat, ghost t: Token) returns (res: Status)
      requires Room() && t.Match? && t.Valid() && length == t.Length() && offs == t.Distance()
      modifies this`destPos, dest
      ensures Room() && old(destPos) <= destPos && Wrote(res, Append(old(Out()), destEnd, t))
      ensures forall i :: 0 <= i < old(destPos) || destPos <= i < dest.Length ==> dest[i] == old(dest[i])
    {
      if offs > destPos {
        return DataError;
      }
      if destEnd - destPos < length {
        return BufError;
      }
      CopyMatch(length, offs);
      return Ok;
    }

    /** A match, of which the symbol `sym` has been read. */
    method InflateMatch(sym: nat, ghost l: Alphabet, ghost d: Alphabet) returns (res: Status, ghost item: Item)
      requires Ready() && Room() && ltree.Holds(l) && dtree.Holds(d) && sym > END_OF_BLOCK
      requires d.maxSym != -1 ==> Complete(d.lens)
      modifies this`source, this`tag, this`bitcount, this`overflow, this`cursor, this`destPos, dest
      ensures Ready() && Room() && old(destPos) <= destPos
      ensures item == if sym > l.maxSym || sym - 257 > 28 || d.maxSym == -1 then Bad
                      else ReadMatch(src, old(cursor), sym - 257, d)
      ensures !item.End? && (item.Bad? ==> res == DataError && destPos == old(destPos) && Out() == old(Out()))
      ensures item.Tok? ==> cursor == item.cur && Wrote(res, Append(old(Out()), destEnd, item.t))
      ensures forall i :: 0 <= i < old(destPos) || destPos <= i < dest.Length ==> dest[i] == old(dest[i])
    {
      hide Complete, Symbol, ReadMatch, Append, CodeAt, Inflater.Ready, Sorted, Field, Value, Wrote;
      item := Bad;
      if sym > ltree.maxSym || sym - 257 > 28 || dtree.maxSym == -1 {
        return DataError, item;
      }
      var ok, length, offs;
      ok, length, offs, item := ReadLengthDistance(sym - 257, d);
      if !ok {
        return DataError, item;
      }
      res := PutMatch(length, offs, item.t);
    }

    /** Decodes symbols to the end of a block. */
    method InflateBlockData(ghost l: Alphabet, ghost d: Alphabet) returns (res: Status)
      requires Ready() && Room() && ltree.Holds(l) && dtree.Holds(d)
      requires Complete(l.lens) && (d.maxSym != -1 ==> Complete(d.lens)) && l.maxSym >= END_OF_BLOCK
      modifies this`source, this`tag, this`bitcount, this`overflow, this`cursor, this`destPos, dest
      ensures Room() && old(destPos) <= destPos && (res == Ok ==> Ready())
      ensures Ends(res, Tokens(src, old(cursor), old(Out()), destEnd, l, d))
      ensures forall i :: 0 <= i < old(destPos) || destPos <= i < dest.Length ==> dest[i] == old(dest[i])
    {
      hide Complete, Symbol, Tokens, ReadToken, ReadMatch, Append, ExpandToken, CodeAt, Inflater.Ready, Sorted;
      hide Field, Value;
      ghost var run := Tokens(src, cursor, Out(), destEnd, l, d);
      while true
        invariant Ready() && Room() && old(destPos) <= destPos
        invariant run == Tokens(src, cursor, Out(), destEnd, l, d)
        invariant forall i :: 0 <= i < old(destPos) || destPos <= i < dest.Length ==> dest[i] == old(dest[i])
        decreases Unread(src, cursor)
      {
        ghost var cur, out := cursor, Out();
        var sym := DecodeSymbol(ltree, l);
        TokenRead(src, cur, l, d, sym);
        TokensStep(src, cur, out, destEnd, l, d);
        OverflowIff();
        if overflow {
          return DataError;
        }
        if sym < 256 {
          res := PutLiteral(sym);
        } else {
          if sym == 256 {
            return Ok;
          }
          ghost var item;
          res, item := InflateMatch(sym, l, d);
        }
        if res != Ok {
          return;
        }
      }
    }

    /** Copies `length` bytes from the source as they are. */
    method CopyStored(length: nat)
      requires Room() && source + length <= |src| && length <= destEnd - destPos
      modifies this`source, this`destPos, dest
      ensures Room() && source == old(source) + length && destPos == old(destPos) + length
      ensures Out() == old(Out()) + src[old(source)..source]
      ensures forall i :: 0 <= i < old(destPos) || destPos <= i < dest.Length ==> dest[i] == old(dest[i])
    {
      ghost var start, out := source, Out();
      for i := 0 to length
        invariant source == start + i && destPos == old(destPos) + i
        invariant dest[..destPos] == out + src[start..source]
        invariant forall k :: 0 <= k < old(destPos) || destPos <= k < dest.Length ==> dest[k] == old(dest[k])
      {
        dest[destPos] := src[source];
        destPos, source := destPos + 1, source + 1;
      }
    }

    /** Copies and drops the bits held, to go on at the byte behind. */
    method CopyBlock(length: nat)
      requires Room() && !overflow && source + length <= |src| && length <= destEnd - destPos
      modifies this`source, this`tag, this`bitcount, this`cursor, this`destPos, dest
      ensures Ready() && Room() && cursor == 8 * (old(source) + length) && old(destPos) <= destPos
      ensures Out() == old(Out()) + src[old(source)..old(source) + length]
      ensures forall i :: 0 <= i < old(destPos) || destPos <= i < dest.Length ==> dest[i] == old(dest[i])
    {
      CopyStored(length);
      tag, bitcount := 0, 0;
      cursor := 8 * source;
    }

    /** Reads the length of a stored block from the bytes behind the one under way, if the data is there. */
    method StoredLength() returns (ok: bool, length: nat)
      requires Ready()
      modifies this`source
      ensures var p := Min(ByteAfter(cursor), |src|);
        && ok == (|src| - p >= 4 && ReadLe16(src, p) == 65535 - ReadLe16(src, p + 2)
                  && |src| - (p + 4) >= ReadLe16(src, p))
        && (ok ==> source == p + 4 && length == ReadLe16(src, p) && !overflow)
    {
      hide ReadLe16;
      assert (cursor + bitcount) / 8 == ByteAfter(cursor);
      length := 0;
      if |src| - source < 4 {
        return false, length;
      }
      length := ReadLe16(src, source);
      var invlength := ReadLe16(src, source + 2);
      if length != 65535 - invlength {
        return false, length;
      }
      source := source + 4;
      ok := |src| - source >= length;
    }

    /** Copies an uncompressed block; bits held from the current byte are padding and dropped. */
    method InflateUncompressedBlock() returns (res: Status)
      requires Ready() && Room()
      modifies this`source, this`tag, this`bitcount, this`cursor, this`destPos, dest
      ensures Room() && old(destPos) <= destPos && (res == Ok ==> Ready())
      ensures Ends(res, StoredBlock(src, old(cursor), old(Out()), destEnd))
      ensures forall i :: 0 <= i < old(destPos) || destPos <= i < dest.Length ==> dest[i] == old(dest[i])
    {
      hide ReadLe16, ByteAfter, StoredBlock, Inflater.Ready;
      StoredCases(src, cursor, Out(), destEnd);
      var ok, length := StoredLength();
      if !ok {
        return DataError;
      }
      if destEnd - destPos < length {
        return BufError;
      }
      CopyBlock(length);
      return Ok;
    }

    // ---- dynamic headers

    /** Reads the lengths of the code length code and builds its tree, in the literal tree. */
    method ReadCodeLengths(lengths: array<nat>, hclen: nat) returns (res: Status, ghost cl: Lengths)
      requires Ready() && Room() && hclen <= 19 && lengths.Length == 320 && lengths !in Trees()
      modifies this`source, this`tag, this`bitcount, this`overflow, this`cursor
      modifies lengths, ltree, ltree.counts, ltree.symbols
      ensures Ready() && cursor == old(cursor) + 3 * hclen && |cl| == 19
      ensures cl == Scatter(Repeat(0, 19), ReadSent(src, old(cursor), hclen), 0)
      ensures res == if Acceptable(cl) && Used(cl) > 0 then Ok else DataError
      ensures res == Ok ==> ltree.Holds(Decoding(cl))
    {
      hide Inflater.Reader, Inflater.Ready, Field, Effective, Tree.Holds, CodeLengthOrderTable;
      for i := 0 to 19
        invariant Ready() && cursor == old(cursor)
        invariant forall k :: 0 <= k < i ==> lengths[k] == 0
      {
        lengths[i] := 0;
      }
      cl := Repeat(0, 19);
      ghost var sent := ReadSent(src, cursor, hclen);
      for i := 0 to hclen
        invariant Ready() && cursor == old(cursor) + 3 * i
        invariant |cl| == 19 && Stores(lengths, 0, cl)
        invariant Scatter(Repeat(0, 19), sent, 0) == Scatter(cl, sent, i)
      {
        ReadSentAt(src, old(cursor), hclen, i);
        var clen := GetBits(3);
        OrderTableAgrees(i);
        lengths[CodeLengthOrderTable()[i]] := clen;
        cl := cl[CodeLengthOrder(i) := clen];
      }
      res := ltree.Build(lengths, 0, 19, cl);
      UsedBelow(cl, |cl|);
      if res == Ok && ltree.maxSym == -1 {
        res := DataError;
      }
    }

    /**
     * Reads one step of the run-length coded lengths, after the lengths `lens`: `length` times the
     * value `sym`.
     */
    method ReadRun(lengths: array<nat>, num: nat, ghost cl: Lengths, ghost lens: Lengths)
      returns (ok: bool, sym: nat, length: nat, ghost item: OpItem)
      requires Ready() && num == |lens| && Stores(lengths, 0, lens)
      requires |cl| == 19 && Complete(Effective(cl)) && ltree.Holds(Decoding(cl))
      modifies this`source, this`tag, this`bitcount, this`overflow, this`cursor
      ensures Ready() && item == ReadOp(src, old(cursor), Decoding(cl))
      ensures ok == (item.OpRead? && item.op.Apply(lens).Some?)
      ensures ok ==> cursor == item.cur && sym <= MAX_BITS
      ensures ok ==> item.op.Apply(lens) == Some(lens + Repeat(sym, length))
    {
      hide Inflater.Reader, Inflater.Ready, Complete, Symbol, CodeAt, Field, Window;
      item := ReadOp(src, cursor, Decoding(cl));
      ok, length := false, 0;
      sym := DecodeSymbol(ltree, Decoding(cl));
      if sym > ltree.maxSym {
        return;
      }
      match sym {
      case 16 =>
        if num == 0 {
          return;
        }
        sym := lengths[num - 1];
        FieldValue(src, cursor, 2);
        length := GetBitsBase(2, 3);
      case 17 =>
        sym := 0;
        FieldValue(src, cursor, 3);
        length := GetBitsBase(3, 3);
      case 18 =>
        sym := 0;
        FieldValue(src, cursor, 7);
        length := GetBitsBase(7, 11);
      case _ =>
        length := 1;
        assert Repeat(sym, 1) == [sym];
      }
      ok := true;
    }

    /** Decodes the run-length coded code lengths of both trees. */
    method ReadRuns(lengths: array<nat>, total: nat, ghost cl: Lengths) returns (res: Status, ghost lens: Lengths)
      requires Ready() && Room() && total <= 320 && lengths.Length == 320 && lengths !in Trees()
      requires |cl| == 19 && Acceptable(cl) && Used(cl) > 0 && ltree.Holds(Decoding(cl))
      modifies this`source, this`tag, this`bitcount, this`overflow, this`cursor, lengths
      ensures Ready() && (res == Ok || res == DataError)
      ensures ReadLengths(src, old(cursor), Decoding(cl), total, [])
           == if res == Ok then LengthsRead(lens, cursor) else BadLengths
      ensures res == Ok ==> |lens| == total && Stores(lengths, 0, lens)
    {
      EffectiveComplete(cl);
      hide Inflater.Reader, Inflater.Ready, Complete, Effective, Acceptable, Used;
      hide Tree.Holds, ReadOp, ReadLengths, LengthOp.Apply;
      ghost var run := ReadLengths(src, cursor, Decoding(cl), total, []);
      lens := [];
      var num := 0;
      ReadLengthsEnd(src, cursor, Decoding(cl), total, lens);
      while num < total
        invariant Ready() && num == |lens| <= total && Stores(lengths, 0, lens)
        invariant run == ReadLengths(src, cursor, Decoding(cl), total, lens)
      {
        ghost var cur := cursor;
        var ok, sym, length, item := ReadRun(lengths, num, cl, lens);
        ReadLengthsStep(src, cur, Decoding(cl), total, lens);
        if !ok || length > total - num {
          return DataError, lens;
        }
        Write(lengths, num, sym, length, lens);
        num := num + length;
        lens := lens + Repeat(sym, length);
      }
      ReadLengthsEnd(src, cursor, Decoding(cl), total, lens);
      res := Ok;
    }

    /** Stores `length` times the value `sym` from place `num` on. */
    static method Write(lengths: array<nat>, num: nat, sym: nat, length: nat, ghost lens: Lengths)
      requires num == |lens| && sym <= MAX_BITS && num + length <= lengths.Length && Stores(lengths, 0, lens)
      modifies lengths
      ensures Stores(lengths, 0, lens + Repeat(sym, length))
    {
      for i := 0 to length
        invariant forall k :: 0 <= k < num + i ==> lengths[k] == (lens + Repeat(sym, length))[k]
      {
        lengths[num + i] := sym;
      }
    }

    /** Builds both trees from the lengths read. */
    method BuildTrees(lengths: array<nat>, hlit: nat, hdist: nat, ghost lens: Lengths) returns (res: Status)
      requires Room() && lengths !in Trees() && 257 <= hlit <= 286 && hdist <= 30
      requires |lens| == hlit + hdist && Stores(lengths, 0, lens)
      modifies ltree, ltree.counts, ltree.symbols, dtree, dtree.counts, dtree.symbols
      ensures res == if CheckLengths(lens, hlit, 0).HeaderRead? then Ok else DataError
      ensures res == Ok ==> ltree.Holds(Decoding(lens[..hlit])) && dtree.Holds(Decoding(lens[hlit..]))
    {
      hide Acceptable, Effective, Count, Sorted;
      if lengths[256] == 0 {
        return DataError;
      }
      res := ltree.Build(lengths, 0, hlit, lens[..hlit]);
      if res != Ok {
        return;
      }
      res := dtree.Build(lengths, hlit, hdist, lens[hlit..]);
    }

    /** Decodes the header of a dynamic block and builds its trees. */
    method DecodeTrees() returns (res: Status, ghost run: HeaderRun)
      requires Ready() && Room()
      modifies this`source, this`tag, this`bitcount, this`overflow, this`cursor
      modifies ltree, ltree.counts, ltree.symbols, dtree, dtree.counts, dtree.symbols
      ensures Ready() && run == ReadHeader(src, old(cursor))
      ensures run.BadHeader? ==> res == DataError
      ensures run.HeaderRead? ==> res == Ok && cursor == run.cur
      ensures res == Ok ==> ltree.Holds(Decoding(run.literals)) && dtree.Holds(Decoding(run.distances))
    {
      hide Inflater.Reader, Inflater.Ready, Acceptable, Field, Tree.Holds, ReadHeader, ReadLists, Scatter;
      hide ReadSent, ReadLengths, Decoding;
      run := ReadHeader(src, cursor);
      HeaderSteps(src, cursor);
      var hlit := GetBitsBase(5, 257);
      var hdist := GetBitsBase(5, 1);
      var hclen := GetBitsBase(4, 4);
      if hlit > 286 || hdist > 30 {
        return DataError, run;
      }
      var lengths := new nat[320];
      ghost var cl, lens;
      ghost var c := cursor;
      res, cl := ReadCodeLengths(lengths, hclen);
      ListsSteps(src, cursor, cl, hlit, hdist);
      if res != Ok {
        return;
      }
      res, lens := ReadRuns(lengths, hlit + hdist, cl);
      if res != Ok {
        return;
      }
      res := BuildTrees(lengths, hlit, hdist, lens);
    }

    // ---- blocks and streams

    /** Fills in the trees of the fixed codes. */
    method BuildFixedTrees()
      requires Room()
      modifies ltree, ltree.counts, ltree.symbols, dtree, dtree.counts, dtree.symbols
      ensures ltree.Holds(FixedL()) && dtree.Holds(FixedD())
    {
      ltree.FillFixedLiterals();
      dtree.FillFixedDistances();
      FixedLiteralTree(ltree.counts[..], ltree.symbols[..]);
      FixedDistanceTree(dtree.counts[..], dtree.symbols[..]);
    }

    method InflateFixedBlock() returns (res: Status)
      requires Ready() && Room()
      modifies this`source, this`tag, this`bitcount, this`overflow, this`cursor, this`destPos, dest, Trees()
      ensures Room() && old(destPos) <= destPos && (res == Ok ==> Ready())
      ensures Ends(res, Tokens(src, old(cursor), old(Out()), destEnd, FixedL(), FixedD()))
      ensures forall i :: 0 <= i < old(destPos) || destPos <= i < dest.Length ==> dest[i] == old(dest[i])
    {
      hide Inflater.Reader, Inflater.Ready, Tokens, FixedL, FixedD, Complete, Tree.Holds;
      BuildFixedTrees();
      Inflation.FixedUsable();
      res := InflateBlockData(FixedL(), FixedD());
    }

    method InflateDynamicBlock() returns (res: Status)
      requires Ready() && Room()
      modifies this`source, this`tag, this`bitcount, this`overflow, this`cursor, this`destPos, dest, Trees()
      ensures Room() && old(destPos) <= destPos && (res == Ok ==> Ready())
      ensures Ends(res, BlockBody(src, old(cursor), 2, old(Out()), destEnd))
      ensures forall i :: 0 <= i < old(destPos) || destPos <= i < dest.Length ==> dest[i] == old(dest[i])
    {
      hide Inflater.Reader, Inflater.Ready, Tokens, ReadHeader, Effective, Complete, Tree.Holds, Acceptable;
      ghost var run;
      res, run := DecodeTrees();
      if res != Ok {
        return;
      }
      UsedBelow(run.literals, |run.literals|);
      UsedBelow(run.distances, |run.distances|);
      EffectiveComplete(run.literals);
      if Used(run.distances) > 0 {
        EffectiveComplete(run.distances);
      }
      res := InflateBlockData(Decoding(run.literals), Decoding(run.distances));
    }

    /** Inflates a block of type `btype`, 3 being no type at all. */
    method InflateBlock(btype: nat) returns (res: Status)
      requires Ready() && Room()
      modifies this`source, this`tag, this`bitcount, this`overflow, this`cursor, this`destPos, dest, Trees()
      ensures Room() && old(destPos) <= destPos && (res == Ok ==> Ready())
      ensures Ends(res, BlockBody(src, old(cursor), btype, old(Out()), destEnd))
      ensures forall i :: 0 <= i < old(destPos) || destPos <= i < dest.Length ==> dest[i] == old(dest[i])
    {
      hide Inflater.Reader, Inflater.Ready, BlockBody, StoredBlock, Tokens;
      BodyCases(src, cursor, btype, Out(), destEnd);
      match btype {
        case 0 => res := InflateUncompressedBlock();
        case 1 => res := InflateFixedBlock();
        case 2 => res := InflateDynamicBlock();
        case _ => res := DataError;
      }
    }

    /** Inflates block after block, to the end of the one with the final flag. */
    method InflateBlocks() returns (res: Status)
      requires Ready() && Room()
      modifies this`source, this`tag, this`bitcount, this`overflow, this`cursor, this`destPos, dest, Trees()
      ensures Room() && old(destPos) <= destPos
      ensures Ends(res, Stream(src, old(cursor), old(Out()), destEnd))
      ensures forall i :: 0 <= i < old(destPos) || destPos <= i < dest.Length ==> dest[i] == old(dest[i])
    {
      hide Inflater.Reader, Inflater.Ready, Stream, BlockBody, Field;
      ghost var run := Stream(src, cursor, Out(), destEnd);
      while true
        invariant Ready() && Room() && old(destPos) <= destPos
        invariant run == Stream(src, cursor, Out(), destEnd)
        invariant forall i :: 0 <= i < old(destPos) || destPos <= i < dest.Length ==> dest[i] == old(dest[i])
        decreases Unread(src, cursor)
      {
        StreamStep(src, cursor, Out(), destEnd);
        var bfinal := GetBits(1);
        var btype := GetBits(2);
        res := InflateBlock(btype);
        if res != Ok {
          return;
        }
        if bfinal == 1 {
          break;
        }
      }
      OverflowIff();
      if overflow {
        return DataError;
      }
    }
  }

  /** A byte or-ed in above the bits held extends them; past the end nothing needs to be added. */
  lemma RefillByte(src: seq<Byte>, cursor: nat, bitcount: nat)
    requires (cursor + bitcount) % 8 == 0
    ensures var p, tag := (cursor + bitcount) / 8, Field(src, cursor, bitcount);
      Field(src, cursor, bitcount + 8) == if p < |src| then Or(tag, ShiftLeft(src[p], bitcount)) else tag
  {
    hide Pow2, FieldBetween, Or;
    var p := (cursor + bitcount) / 8;
    FieldSplit(src, cursor, bitcount, 8);
    FieldByte(src, p);
    assert 8 * p == cursor + bitcount;
    if p < |src| {
      FieldBound(src, cursor, bitcount);
      OrAbove(Field(src, cursor, bitcount), src[p], bitcount);
    }
  }

  lemma FieldOne(src: seq<Byte>, cur: nat)
    ensures Field(src, cur, 1) == BitNum(BitAt(src, cur))
  {
    assert FieldBetween(src, cur + 1, cur + 1) == 0;
  }

  lemma DecodeStart(src: seq<Byte>, cur: nat, lens: Lengths)
    ensures CodeBetween(src, cur, cur) - FirstCode(lens, 0) - Count(lens, 0) == 0
  {
  }

  /** One more bit of a code; the free code space runs out after 15 bits. */
  lemma DecodeStep(src: seq<Byte>, cur: nat, lens: Lengths, len: nat, offs: nat)
    requires 1 <= len <= 16 && Complete(lens)
    requires offs == CodeBetween(src, cur, cur + len - 1) - FirstCode(lens, len - 1) - Count(lens, len - 1)
    ensures 2 * offs + Field(src, cur + len - 1, 1) == CodeBetween(src, cur, cur + len) - FirstCode(lens, len)
    ensures Shorter(lens, len + 1) == Shorter(lens, len) + Count(lens, len)
    ensures len <= 15
  {
    FieldOne(src, cur + len - 1);
    assert CodeBetween(src, cur, cur + len)
        == 2 * CodeBetween(src, cur, cur + len - 1) + BitNum(BitAt(src, cur + len - 1));
    CodeBelowAvail(src, cur, lens, len);
    AvailKraft(lens);
  }

  /** Place `offs` behind the shorter codes holds the symbol whose code was read. */
  lemma SymbolInTable(src: seq<Byte>, cur: nat, lens: Lengths, table: seq<nat>, len: nat, offs: nat)
    requires Complete(lens) && Sorted(lens, table) && 1 <= len <= MAX_BITS && offs < Count(lens, len)
    requires CodeBetween(src, cur, cur + len) == FirstCode(lens, len) + offs
    ensures Shorter(lens, len) + offs < |table|
    ensures var s := table[Shorter(lens, len) + offs];
      CodeAt(src, cur, lens, s) && lens[s] == len && Symbol(src, cur, lens) == Some(s)
  {
    hide CodeBetween, FirstCode, Symbol, Shorter, At, Codeword;
    var s := SymbolOfRank(lens, |lens|, len, offs);
    assert TableAt(lens, table, s);
    CodeAtIff(src, cur, lens, s);
    SymbolIs(src, cur, lens, s);
  }

  /** A list with more codes of a length than there is space for may not be sent. */
  lemma Overdrawn(lens: Lengths, l: nat)
    requires l <= MAX_BITS && Count(lens, l) > Avail(lens, l)
    ensures !Acceptable(lens)
  {
    hide Acceptable, Avail, Count;
    if Acceptable(lens) {
      AcceptableFits(lens);
      CountFits(lens, l);
    }
  }

  /** The two final tests of the builder single out the lists that may be sent. */
  lemma BuildDecision(lens: Lengths)
    requires Avail(lens, 16) >= 0
    ensures Shorter(lens, 16) == Used(lens)
    ensures Acceptable(lens) <==> !((Used(lens) > 1 && Avail(lens, 16) > 0) || (Used(lens) == 1 && Count(lens, 1) != 1))
  {
    ShorterAll(lens);
    AvailKraft(lens);
    if Used(lens) == 1 {
      SingleShape(lens);
      SingleCount(lens, |lens|, 1);
    }
  }

  lemma {:induction false} SingleCount(lens: Lengths, n: nat, l: nat)
    requires Used(lens) == 1 && n <= |lens| && l > 0
    requires 0 <= MaxSym(lens) && forall i :: 0 <= i < |lens| && i != MaxSym(lens) ==> lens[i] == 0
    ensures CountTo(lens, n, l) == if n > MaxSym(lens) && lens[MaxSym(lens)] == l then 1 else 0
    decreases n
  {
    if n > 0 {
      SingleCount(lens, n - 1, l);
    }
  }

  lemma SingleSlot(lens: Lengths, table: seq<nat>)
    requires Used(lens) == 1 && Acceptable(lens) && Sorted(lens, table)
    ensures |table| > 0 && table[0] == MaxSym(lens)
    ensures forall l :: 0 <= l < 16 ==> Count(lens, l) == if l == 1 then 1 else 0
  {
    SingleShape(lens);
    forall l | 0 < l < 16 ensures Count(lens, l) == if l == 1 then 1 else 0 {
      SingleCount(lens, |lens|, l);
    }
    SingleCountZero(lens, MaxSym(lens), 1);
    FirstOne(lens);
    assert TableAt(lens, table, MaxSym(lens));
  }

  /** The tree of two codes of one bit. */
  lemma TwoCodesTree(e: Lengths, m: nat, table: seq<nat>)
    requires TwoCodes(e, m) && |table| >= 2 && table[0] == m && table[1] == m + 1
    ensures Sorted(e, table)
    ensures forall l :: 0 <= l < 16 ==> Count(e, l) == if l == 1 then 2 else 0
  {
    hide Pow2;
    forall l | 0 < l < 16 ensures Count(e, l) == if l == 1 then 2 else 0 {
      TwoCodesSums(e, m, |e|, l);
    }
    TwoCodesSums(e, m, |e|, 1);
    TwoCodesSums(e, m, m, 1);
    TwoCodesSums(e, m, m + 1, 1);
    FirstOne(e);
  }

  lemma TokenRead(src: seq<Byte>, cur: nat, l: Alphabet, d: Alphabet, s: nat)
    requires Symbol(src, cur, l.lens) == Some(s)
    ensures var c := cur + l.lens[s];
      ReadToken(src, cur, l, d) ==
        if c > 8 * |src| then Bad
        else if s < 256 then Tok(Literal(s), c)
        else if s == END_OF_BLOCK then End(c)
        else if s > l.maxSym || s - 257 > 28 || d.maxSym == -1 then Bad
        else ReadMatch(src, c, s - 257, d)
  {
  }

  lemma TokensStep(src: seq<Byte>, cur: nat, out: seq<Byte>, cap: nat, l: Alphabet, d: Alphabet)
    requires |out| <= cap
    ensures var i, r := ReadToken(src, cur, l, d), Tokens(src, cur, out, cap, l, d);
      && (i.Bad? ==> r == Fail(DataError, out))
      && (i.End? ==> r == Done(i.cur, out))
      && (i.Tok? ==>
          if Append(out, cap, i.t).Fail? then r == Append(out, cap, i.t)
          else r == Tokens(src, i.cur, Append(out, cap, i.t).out, cap, l, d))
  {
  }

  lemma {:induction false} ExtendSnoc(out: seq<Byte>, n: nat, d: nat)
    requires 1 <= d <= |out|
    ensures var r := Extend(out, n, d); Extend(out, n + 1, d) == r + [r[|r| - d]]
    decreases n
  {
    if n == 0 {
      assert Extend(out + [out[|out| - d]], 0, d) == out + [out[|out| - d]];
    } else {
      ExtendSnoc(out + [out[|out| - d]], n - 1, d);
    }
  }

  lemma {:induction false} ReadSentAt(src: seq<Byte>, cur: nat, n: nat, i: nat)
    requires i < n
    ensures ReadSent(src, cur, n)[i] == Field(src, cur + 3 * i, 3) < 8
    decreases n
  {
    if i > 0 {
      ReadSentAt(src, cur + 3, n - 1, i - 1);
      assert cur + 3 + 3 * (i - 1) == cur + 3 * i;
    }
  }

  lemma ReadLengthsEnd(src: seq<Byte>, cur: nat, cl: Alphabet, total: nat, lens: Lengths)
    requires |lens| <= total && cl.maxSym <= 18
    ensures |lens| == total ==> ReadLengths(src, cur, cl, total, lens) == LengthsRead(lens, cur)
  {
  }

  lemma ReadLengthsStep(src: seq<Byte>, cur: nat, cl: Alphabet, total: nat, lens: Lengths)
    requires |lens| < total && cl.maxSym <= 18
    ensures var item, r := ReadOp(src, cur, cl), ReadLengths(src, cur, cl, total, lens);
      && (item.BadOp? || item.op.Apply(lens).None? || |item.op.Apply(lens).value| > total ==> r == BadLengths)
      && (item.OpRead? && item.op.Apply(lens).Some? && |item.op.Apply(lens).value| <= total ==>
          r == ReadLengths(src, item.cur, cl, total, item.op.Apply(lens).value))
  {
    hide ReadOp;
  }

  lemma HeaderSteps(src: seq<Byte>, cur: nat)
    ensures var hlit, hdist, hclen := 257 + Field(src, cur, 5), 1 + Field(src, cur + 5, 5), 4 + Field(src, cur + 10, 4);
      && hclen <= 19
      && ReadHeader(src, cur) ==
        if hlit > 286 || hdist > 30 then BadHeader
        else
          ReadLists(src, cur + 14 + 3 * hclen, Scatter(Repeat(0, 19), ReadSent(src, cur + 14, hclen), 0), hlit, hdist)
  {
    FieldBound(src, cur + 10, 4);
    Pow2Values();
  }

  lemma ListsSteps(src: seq<Byte>, cur: nat, cl: Lengths, hlit: nat, hdist: nat)
    requires |cl| == 19 && hlit >= 257
    ensures var r, run := ReadLists(src, cur, cl, hlit, hdist), ReadLengths(src, cur, Decoding(cl), hlit + hdist, []);
      && (!Acceptable(cl) || Used(cl) == 0 || run.BadLengths? ==> r == BadHeader)
      && (Acceptable(cl) && Used(cl) > 0 && run.LengthsRead? ==> r == CheckLengths(run.lens, hlit, run.cur))
  {
    hide ReadLengths;
  }

  // ---- the fixed trees

  function FixedLiteralCount(l: nat): nat {
    if l == 7 then 24 else if l == 8 then 152 else if l == 9 then 112 else 0
  }

  function FixedLiteralSymbol(i: nat): nat {
    if i < 24 then 256 + i else if i < 168 then i - 24 else if i < 176 then 112 + i else i - 32
  }

  lemma {:induction false} FixedLiteralCountTo(n: nat, l: nat)
    requires n <= 288 && l > 0
    ensures CountTo(FixedL().lens, n, l) ==
      if l == 7 then (if n <= 256 then 0 else if n <= 280 then n - 256 else 24)
      else if l == 8 then (if n <= 144 then n else if n <= 280 then 144 else n - 136)
      else if l == 9 then (if n <= 144 then 0 else if n <= 256 then n - 144 else 112)
      else 0
    decreases n
  {
    if n > 0 {
      FixedLiteralCountTo(n - 1, l);
    }
  }

  lemma {:induction false} ShorterZero(lens: Lengths, a: nat, b: nat)
    requires a <= b && forall l :: a <= l < b ==> Count(lens, l) == 0
    ensures Shorter(lens, b) == Shorter(lens, a)
    decreases b
  {
    if a < b {
      ShorterZero(lens, a, b - 1);
    }
  }

  /** The written-out literal tree is the one built from the lengths of section 3.2.6 of RFC 1951. */
  lemma FixedLiteralTree(counts: seq<nat>, table: seq<nat>)
    requires |counts| == 16 && |table| == 288
    requires forall l :: 0 <= l < 16 ==> counts[l] == FixedLiteralCount(l)
    requires forall i :: 0 <= i < 288 ==> table[i] == FixedLiteralSymbol(i)
    ensures forall l :: 0 <= l < 16 ==> counts[l] == Count(FixedL().lens, l)
    ensures Sorted(FixedL().lens, table)
  {
    var lens := FixedL().lens;
    assert |lens| == 288;
    forall l | 0 <= l < 16 ensures Count(lens, l) == FixedLiteralCount(l) {
      if l > 0 {
        FixedLiteralCountTo(288, l);
      }
    }
    assert Shorter(lens, 0) == 0;
    ShorterZero(lens, 0, 7);
    assert Shorter(lens, 8) == Shorter(lens, 7) + Count(lens, 7);
    assert Shorter(lens, 9) == Shorter(lens, 8) + Count(lens, 8);
    forall s: nat | HasCode(lens, s) ensures TableAt(lens, table, s) {
      FixedLiteralCountTo(s, lens[s]);
      assert lens[s] == FixedLength(s);
    }
  }

  lemma {:induction false} FixedDistanceCountTo(n: nat, l: nat)
    requires n <= 32
    ensures CountTo(FixedD().lens, n, l) == if l == 5 then n else 0
    decreases n
  {
    if n > 0 {
      FixedDistanceCountTo(n - 1, l);
    }
  }

  lemma FixedDistanceTree(counts: seq<nat>, table: seq<nat>)
    requires |counts| == 16 && |table| == 288
    requires forall l :: 0 <= l < 16 ==> counts[l] == if l == 5 then 32 else 0
    requires forall i :: 0 <= i < 32 ==> table[i] == i
    ensures forall l :: 0 <= l < 16 ==> counts[l] == Count(FixedD().lens, l)
    ensures Sorted(FixedD().lens, table)
  {
    var lens := FixedD().lens;
    forall l | 0 <= l < 16 ensures Count(lens, l) == if l == 5 then 32 else 0 {
      FixedDistanceCountTo(32, l);
    }
    assert Shorter(lens, 0) == 0;
    ShorterZero(lens, 0, 5);
    forall s: nat | HasCode(lens, s) ensures TableAt(lens, table, s) {
      FixedDistanceCountTo(s, 5);
    }
  }

  /** A decompression returned `res`, and `out` if it succeeded, as `run` says. */
  ghost predicate Result(res: Status, out: seq<Byte>, run: Run) {
    match run
    case Done(_, o) => res == Ok && out == o
    case Fail(status, _) => res == status != Ok
  }

  /**
   * Inflates `src` into the first `destLen` bytes of `dest`. It succeeds exactly when `src` begins
   * with the bits of a valid stream whose expansion fits, and then stores that expansion; a stream
   * whose expansion does not fit is a buffer error.
   */
  method Uncompress(dest: array<Byte>, destLen: nat, src: seq<Byte>) returns (res: Status, newLen: nat)
    requires destLen <= dest.Length
    modifies dest
    ensures newLen <= destLen && Result(res, dest[..newLen], Decoder.Uncompress(src, destLen))
    ensures res != Ok ==> newLen == destLen
    ensures forall i :: destLen <= i < dest.Length ==> dest[i] == old(dest[i])
    ensures res == Ok ==> forall i :: newLen <= i < dest.Length ==> dest[i] == old(dest[i])
    ensures res == Ok <==> exists bs :: Inflation.Fitting(src, bs, destLen)
    ensures forall bs :: Inflation.Fitting(src, bs, destLen) ==> dest[..newLen] == ExpandBlocks([], bs).value
    ensures forall bs :: Inflation.Exceeding(src, bs, destLen) ==> res == BufError
    ensures res == BufError <==> exists f :: Overrun.Overruns(src, f, destLen)
  {
    var d := new Inflater(dest, destLen, src);
    assert d.Out() == [];
    Inflation.InflateSuccess(src, destLen);
    Overrun.BufferErrorExact(src, destLen);
    res := d.InflateBlocks();
    newLen := if res == Ok then d.destPos else destLen;
  }

  /** The outcomes of a stored block. */
  lemma StoredCases(src: seq<Byte>, cur: nat, out: seq<Byte>, cap: nat)
    requires |out| <= cap
    ensures var p, r := Min(ByteAfter(cur), |src|), StoredBlock(src, cur, out, cap);
      if |src| - p >= 4 && ReadLe16(src, p) == 65535 - ReadLe16(src, p + 2) && |src| - (p + 4) >= ReadLe16(src, p) then
        var n := ReadLe16(src, p);
        r == if cap - |out| < n then Fail(BufError, out) else Done(8 * (p + 4 + n), out + src[p + 4..p + 4 + n])
      else r == Fail(DataError, out)
  {
  }

  lemma StreamStep(src: seq<Byte>, cur: nat, out: seq<Byte>, cap: nat)
    requires |out| <= cap
    ensures var r, b := Stream(src, cur, out, cap), BlockBody(src, cur + 3, Field(src, cur + 1, 2), out, cap);
      && (b.Fail? || Field(src, cur, 1) == 1 ==> r == b)
      && (b.Done? && Field(src, cur, 1) != 1 ==> cur < b.cur <= 8 * |src| && r == Stream(src, b.cur, b.out, cap))
  {
    hide BlockBody;
  }

  lemma BodyCases(src: seq<Byte>, cur: nat, btype: nat, out: seq<Byte>, cap: nat)
    requires |out| <= cap
    ensures btype == 0 ==> BlockBody(src, cur, btype, out, cap) == StoredBlock(src, cur, out, cap)
    ensures btype == 1 ==> BlockBody(src, cur, btype, out, cap) == Tokens(src, cur, out, cap, FixedL(), FixedD())
    ensures btype > 2 ==> BlockBody(src, cur, btype, out, cap) == Fail(DataError, out)
  {
  }
}
