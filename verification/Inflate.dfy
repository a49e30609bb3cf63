/** Decoding one block's worth of compressed data: dyn_inflate_codes accepts
    exactly the bit strings that encode literals and back-references, and
    produces the bytes they stand for. */
module Inflate {
  import opened Arith
  import opened BitSeq
  import opened BitIo
  import opened Huffman
  import opened DeflateFormat

  datatype HuffTable = HuffTable(count: array<int>, symbol: array<int>)

  ghost predicate TableFor(h: HuffTable, lengths: seq<nat>)
    reads h.count, h.symbol
  {
    IsTable(h.count[..], h.symbol[..], lengths)
  }

  /** An item that a decoder with limit bytes of room must accept. */
  ghost predicate ItemAt(c: Codes, t: Item, r: seq<bool>, out: seq<Byte>, limit: nat)
  {
    Encodable(c, t) && ItemBits(c, t) <= r && Refers(out, t) && |Apply(out, t)| <= limit
  }

  ghost predicate EndAt(c: Codes, r: seq<bool>)
  {
    HasCode(c.ll, END_OF_BLOCK) && EndBits(c) <= r
  }

  /** Nothing acceptable comes next. */
  ghost predicate NothingAt(c: Codes, r: seq<bool>, out: seq<Byte>, limit: nat)
  {
    !EndAt(c, r) && forall t: Item :: !ItemAt(c, t, r, out, limit)
  }

  datatype Step = Bad | End | More

  // ---- why a step fails ---------------------------------------------------------------------

  /** No item at all comes next. */
  ghost predicate NoItem(c: Codes, r: seq<bool>)
  {
    forall t: Item :: !(Encodable(c, t) && ItemBits(c, t) <= r)
  }

  lemma NoItemNothing(c: Codes, r: seq<bool>, out: seq<Byte>, limit: nat)
    requires NoItem(c, r) && !EndAt(c, r)
    ensures NothingAt(c, r, out, limit)
  {
    hide Encodable, EndAt;
  }

  lemma FitsCodes(c: Codes, t: Item, r: seq<bool>, sym: nat)
    requires UsableCodes(c) && Encodable(c, t) && ItemBits(c, t) <= r
    requires HasCode(c.ll, sym) && CodeBits(c.ll, sym) <= r
    ensures FirstSym(t) == sym
  {
    FirstSymAtStart(c, t, r);
    PrefixFree(c.ll, FirstSym(t), sym, r);
  }

  lemma NotTheEnd(c: Codes, r: seq<bool>, sym: nat)
    requires UsableCodes(c) && HasCode(c.ll, sym) && CodeBits(c.ll, sym) <= r && sym != END_OF_BLOCK
    ensures !EndAt(c, r)
  {
    if EndAt(c, r) { PrefixFree(c.ll, END_OF_BLOCK, sym, r); }
  }

  lemma NoSymbol(c: Codes, r: seq<bool>)
    requires UsableCodes(c) && NoneBelow(c.ll, r, MAXBITS + 1)
    ensures NoItem(c, r) && !EndAt(c, r)
  {
    hide CodeBits, Oversubscribed;
    forall t: Item | Encodable(c, t) && ItemBits(c, t) <= r
      ensures false
    {
      FirstSymAtStart(c, t, r);
    }
  }

  lemma ReservedSymbol(c: Codes, r: seq<bool>, sym: nat)
    requires UsableCodes(c) && HasCode(c.ll, sym) && CodeBits(c.ll, sym) <= r && sym >= 286
    ensures NoItem(c, r) && !EndAt(c, r)
  {
    forall t: Item | Encodable(c, t) && ItemBits(c, t) <= r
      ensures false
    {
      FitsCodes(c, t, r, sym);
    }
    NotTheEnd(c, r, sym);
  }

  lemma NoRoomForLiteral(c: Codes, r: seq<bool>, sym: nat, out: seq<Byte>, limit: nat)
    requires UsableCodes(c) && HasCode(c.ll, sym) && CodeBits(c.ll, sym) <= r && sym < 256 && |out| + 1 > limit
    ensures NothingAt(c, r, out, limit)
  {
    forall t: Item | ItemAt(c, t, r, out, limit)
      ensures false
    {
      FitsCodes(c, t, r, sym);
    }
    NotTheEnd(c, r, sym);
  }

  /** The length code i comes next. */
  ghost predicate LengthAt(c: Codes, r: seq<bool>, i: nat)
  {
    UsableCodes(c) && i < 29 && HasCode(c.ll, 257 + i) && CodeBits(c.ll, 257 + i) <= r
  }

  /** So every item that may come next is a back-reference with that code. */
  lemma LengthOnly(c: Codes, t: Item, r: seq<bool>, i: nat)
    requires LengthAt(c, r, i) && Encodable(c, t) && ItemBits(c, t) <= r
    ensures t.Ref? && t.i == i && RefAt(c, t, r)
  {
    FitsCodes(c, t, r, 257 + i);
    RefParts(c, t, r);
  }

  /** The stream ends within the extra bits of the length. */
  lemma ShortLength(c: Codes, r: seq<bool>, i: nat)
    requires LengthAt(c, r, i) && |r| < c.ll[257 + i] + LenExtra(i)
    ensures NoItem(c, r)
  {
    hide CodeBits, UsableCodes;
    forall t: Item | Encodable(c, t) && ItemBits(c, t) <= r
      ensures false
    {
      LengthOnly(c, t, r, i);
    }
  }

  lemma DistanceAt(c: Codes, t: Item, r: seq<bool>, i: nat, n2: nat)
    requires LengthAt(c, r, i) && Encodable(c, t) && ItemBits(c, t) <= r
    requires n2 == c.ll[257 + i] + LenExtra(i) <= |r|
    ensures t.Ref? && t.j < 30 && HasCode(c.dl, t.j) && CodeBits(c.dl, t.j) <= r[n2..]
    ensures n2 + c.dl[t.j] + DistExtra(t.j) <= |r| && c.dl[t.j] <= MAXBITS
  {
    hide CodeBits, Oversubscribed;
    LengthOnly(c, t, r, i);
  }

  /** No distance code follows. */
  lemma NoDistance(c: Codes, r: seq<bool>, i: nat, n2: nat)
    requires LengthAt(c, r, i) && n2 == c.ll[257 + i] + LenExtra(i) <= |r|
    requires NoneBelow(c.dl, r[n2..], MAXBITS + 1)
    ensures NoItem(c, r)
  {
    hide CodeBits, Oversubscribed, LengthAt, ItemBits, Encodable, LenExtra;
    forall t: Item | Encodable(c, t) && ItemBits(c, t) <= r
      ensures false
    {
      DistanceAt(c, t, r, i, n2);
    }
  }

  /** A reserved distance code follows, or a truncated one. */
  lemma BadDistance(c: Codes, r: seq<bool>, i: nat, n2: nat, d: nat)
    requires LengthAt(c, r, i) && n2 == c.ll[257 + i] + LenExtra(i) <= |r|
    requires HasCode(c.dl, d) && CodeBits(c.dl, d) <= r[n2..]
    requires d >= 30 || |r| < n2 + c.dl[d] + DistExtra(d)
    ensures NoItem(c, r)
  {
    hide CodeBits, Oversubscribed, LengthAt, ItemBits, Encodable, LenExtra;
    LengthParts(c, r, i);
    forall t: Item | Encodable(c, t) && ItemBits(c, t) <= r
      ensures false
    {
      DistanceAt(c, t, r, i, n2);
      PrefixFree(c.dl, t.j, d, r[n2..]);
    }
  }

  /** The item read is the only candidate, but it is not acceptable. */
  lemma UnacceptableItem(c: Codes, r: seq<bool>, t: Item, out: seq<Byte>, limit: nat)
    requires UsableCodes(c) && !EndAt(c, r)
    requires Encodable(c, t) && ItemBits(c, t) <= r && !ItemAt(c, t, r, out, limit)
    ensures NothingAt(c, r, out, limit)
  {
    hide ItemBits, Encodable, UsableCodes, Refers, EndAt;
    forall u: Item | ItemAt(c, u, r, out, limit)
      ensures false
    {
      ItemUnique(c, t, u, r);
    }
  }

  // ---- one step -----------------------------------------------------------------------------------

  /** The copy loop of a back-reference. */
  method CopyBack(o: OutBuf, dist: nat, length: nat)
    requires o.Valid() && 1 <= dist <= |o.buf| && |o.buf| + length <= o.limit
    modifies o
    ensures o.Valid() && o.buf == Copy(old(o.buf), dist, length)
  {
    var from := |o.buf| - dist;
    for k := 0 to length
      invariant from == |o.buf| - dist >= 0 && |o.buf| == |old(o.buf)| + k
      invariant Copy(o.buf, dist, length - k) == Copy(old(o.buf), dist, length)
    {
      o.buf := o.buf + [o.buf[from]];
      from := from + 1;
    }
  }

  /** The distance half of a back-reference. */
  method ReadDistance(s: BitReader, dt: HuffTable, ghost c: Codes, ghost i: nat, ghost r: seq<bool>, ghost n2: nat)
    returns (dsv: int, xd: nat)
    requires s.Valid() && !s.error && TableFor(dt, c.dl)
    requires LengthAt(c, r, i) && n2 == c.ll[257 + i] + LenExtra(i) <= |r| && s.Rest() == r[n2..]
    modifies s
    ensures s.Valid()
    ensures dsv < 0 ==> NoItem(c, r)
    ensures dsv >= 0 ==> dsv < 30 && HasCode(c.dl, dsv) && CodeBits(c.dl, dsv) <= r[n2..] && !s.error
    ensures dsv >= 0 ==> var n3 := n2 + c.dl[dsv]; var n4 := n3 + DistExtra(dsv);
              n4 <= |r| && xd == FromLsb(r[n3..n4]) < Pow(2, DistExtra(dsv)) && s.Rest() == r[n4..]
  {
    hide Oversubscribed, CodeBits, Pow, FromLsb, NoItem, LengthAt, DistExtra, LenExtra, NoneBelow, IsTable, s.Rest;
    LengthParts(c, r, i);
    xd := 0;
    dsv := Decode(s, dt.count, dt.symbol, c.dl);
    if dsv < 0 {
      NoDistance(c, r, i, n2);
      return;
    }
    if dsv >= 30 {
      BadDistance(c, r, i, n2, dsv);
      return -1, 0;
    }
    CodeLength(c.dl, dsv);
    ghost var n3 := n2 + c.dl[dsv];
    SliceTwice(r, n2, c.dl[dsv]);
    ExtraBound(dsv);
    xd := s.Bits(DistExtra(dsv));
    if s.error {
      BadDistance(c, r, i, n2, dsv);
      return -1, 0;
    }
    SliceTwice(r, n3, DistExtra(dsv));
  }

  lemma LengthParts(c: Codes, r: seq<bool>, i: nat)
    requires LengthAt(c, r, i)
    ensures UsableCodes(c) && i < 29 && HasCode(c.ll, 257 + i)
    ensures IsLengths(c.ll) && !Oversubscribed(c.ll) && IsLengths(c.dl) && !Oversubscribed(c.dl)
  {
  }

  lemma CodeLength(lengths: seq<nat>, sym: nat)
    requires sym < |lengths|
    ensures |CodeBits(lengths, sym)| == lengths[sym]
  {
  }

  lemma ExtraBound(j: nat)
    requires j < 30
    ensures DistExtra(j) <= 15
  {
  }

  lemma SliceTwice(r: seq<bool>, a: nat, n: nat)
    requires a + n <= |r|
    ensures r[a..][..n] == r[a..a + n] && r[a..][n..] == r[a + n..]
  {
  }

  /** A whole back-reference after its length code. */
  method ReadRef(s: BitReader, dt: HuffTable, isym: nat, ghost c: Codes, ghost r: seq<bool>)
    returns (ok: bool, length: nat, dist: nat, ghost item: Item)
    requires s.Valid() && !s.error && TableFor(dt, c.dl)
    requires LengthAt(c, r, isym) && c.ll[257 + isym] <= |r| && s.Rest() == r[c.ll[257 + isym]..]
    modifies s
    ensures s.Valid()
    ensures !ok ==> NoItem(c, r)
    ensures ok ==> !s.error && item.Ref? && Encodable(c, item)
                   && length == RefLength(item) && dist == RefDist(item) >= 1
    ensures ok ==> ItemBits(c, item) <= r && s.Rest() == r[|ItemBits(c, item)|..]
  {
    hide Oversubscribed, CodeBits, Pow, FromLsb, NoItem, LengthAt, DistExtra, LenExtra, DistBase, LenBase, IsTable,
         UsableCodes, RefAt, ItemBits, s.Rest;
    LengthParts(c, r, isym);
    length, dist, item := 0, 0, Lit(0);
    ghost var n1 := c.ll[257 + isym];
    LenExtraBound(isym);
    var xl := s.Bits(LenExtra(isym));
    if s.error {
      ShortLength(c, r, isym);
      return false, 0, 0, item;
    }
    ghost var n2 := n1 + LenExtra(isym);
    SliceTwice(r, n1, LenExtra(isym));
    var dsv, xd := ReadDistance(s, dt, c, isym, r, n2);
    if dsv < 0 {
      return false, 0, 0, item;
    }
    item := Ref(isym, xl, dsv, xd);
    assert Encodable(c, item);
    IsRefAt(c, item, r);
    RefParts(c, item, r);
    ok, length, dist := true, LenBase(isym) + xl, DistBase(dsv) + xd;
    DistPositive(item);
  }

  lemma IsRefAt(c: Codes, t: Item, r: seq<bool>)
    requires t.Ref? && LengthAt(c, r, t.i) && Encodable(c, t)
    requires var n1 := c.ll[257 + t.i];
             var n2 := n1 + LenExtra(t.i);
             var n3 := n2 + c.dl[t.j];
             var n4 := n3 + DistExtra(t.j);
             && n4 <= |r| && FromLsb(r[n1..n2]) == t.xl
             && CodeBits(c.dl, t.j) <= r[n2..] && FromLsb(r[n3..n4]) == t.xd
    ensures RefAt(c, t, r)
  {
  }

  lemma LenExtraBound(i: nat)
    requires i < 29
    ensures LenExtra(i) <= 15
  {
  }

  /** One round of dyn_inflate_codes. */
  method NextItem(s: BitReader, o: OutBuf, lt: HuffTable, dt: HuffTable, ghost c: Codes)
    returns (step: Step, ghost item: Item)
    requires s.Valid() && !s.error && o.Valid() && UsableCodes(c) && TableFor(lt, c.ll) && TableFor(dt, c.dl)
    modifies s, o
    ensures s.Valid() && o.Valid()
    ensures step.Bad? ==> NothingAt(c, old(s.Rest()), old(o.buf), o.limit)
    ensures step.End? ==> EndAt(c, old(s.Rest())) && !s.error && o.buf == old(o.buf)
                          && s.Rest() == old(s.Rest())[|EndBits(c)|..]
    ensures step.More? ==> ItemAt(c, item, old(s.Rest()), old(o.buf), o.limit) && !s.error
                           && o.buf == Apply(old(o.buf), item) && s.Rest() == old(s.Rest())[|ItemBits(c, item)|..]
  {
    hide Oversubscribed, CodeBits, Pow, NoItem, IsTable, UsableCodes, NoneBelow, NothingAt, EndAt, LengthAt, RefAt,
         s.Rest, Copy;
    ghost var r, out := s.Rest(), o.buf;
    item := Lit(0);
    UsableParts(c);
    var sym := Decode(s, lt.count, lt.symbol, c.ll);
    if sym < 0 {
      NoSymbol(c, r);
      NoItemNothing(c, r, out, o.limit);
      return Bad, item;
    }
    CodeLength(c.ll, sym);
    if sym == 256 {
      IsEndAt(c, r);
      return End, item;
    }
    if sym < 256 {
      var room := o.Ensure(1);
      if !room {
        NoRoomForLiteral(c, r, sym, out, o.limit);
        return Bad, item;
      }
      o.buf := o.buf + [sym];
      return More, Lit(sym);
    }
    var isym := sym - 257;
    if isym >= 29 {
      ReservedSymbol(c, r, sym);
      NoItemNothing(c, r, out, o.limit);
      return Bad, item;
    }
    IsLengthAt(c, r, isym);
    NotTheEnd(c, r, sym);
    var ok, length, dist, ref := ReadRef(s, dt, isym, c, r);
    if !ok {
      NoItemNothing(c, r, out, o.limit);
      return Bad, item;
    }
    if dist > |o.buf| {
      UnacceptableItem(c, r, ref, out, o.limit);
      return Bad, item;
    }
    var room := o.Ensure(length);
    if !room {
      UnacceptableItem(c, r, ref, out, o.limit);
      return Bad, item;
    }
    CopyBack(o, dist, length);
    return More, ref;
  }

  lemma UsableParts(c: Codes)
    requires UsableCodes(c)
    ensures IsLengths(c.ll) && !Oversubscribed(c.ll) && IsLengths(c.dl) && !Oversubscribed(c.dl)
  {
  }

  lemma IsEndAt(c: Codes, r: seq<bool>)
    requires HasCode(c.ll, END_OF_BLOCK) && CodeBits(c.ll, END_OF_BLOCK) <= r
    ensures EndAt(c, r)
  {
  }

  lemma IsLengthAt(c: Codes, r: seq<bool>, i: nat)
    requires UsableCodes(c) && i < 29 && HasCode(c.ll, 257 + i) && CodeBits(c.ll, 257 + i) <= r
    ensures LengthAt(c, r, i)
  {
  }

  // ---- all steps ------------------------------------------------------------------------------------

  /** The bits r start with these items and the end-of-block code, and their bytes
      fit. */
  ghost predicate IsStream(c: Codes, items: seq<Item>, r: seq<bool>, out: seq<Byte>, limit: nat)
  {
    && AllEncodable(c, items) && HasCode(c.ll, END_OF_BLOCK)
    && ItemsBits(c, items) + EndBits(c) <= r
    && AllRefer(out, items) && |Expand(out, items)| <= limit
  }

  /** The items decoded so far, from r and out on. */
  ghost predicate Decoded(c: Codes, items: seq<Item>, r: seq<bool>, out: seq<Byte>, rest: seq<bool>, buf: seq<Byte>)
  {
    && AllEncodable(c, items) && ItemsBits(c, items) <= r && rest == r[|ItemsBits(c, items)|..]
    && AllRefer(out, items) && buf == Expand(out, items)
  }

  lemma StreamTail(c: Codes, items: seq<Item>, r: seq<bool>, out: seq<Byte>, limit: nat)
    requires IsStream(c, items, r, out, limit) && items != []
    ensures ItemAt(c, items[0], r, out, limit)
    ensures IsStream(c, items[1..], r[|ItemBits(c, items[0])|..], Apply(out, items[0]), limit)
  {
    hide ItemBits, Encodable, EndBits, Refers, Apply;
    var a, b := ItemBits(c, items[0]), ItemsBits(c, items[1..]) + EndBits(c);
    assert (a + ItemsBits(c, items[1..])) + EndBits(c) == a + b;
    PrefixSplit(a, b, r);
  }

  lemma DecodedMore(c: Codes, items: seq<Item>, t: Item, r: seq<bool>, out: seq<Byte>, rest: seq<bool>, buf: seq<Byte>)
    requires Decoded(c, items, r, out, rest, buf) && Encodable(c, t) && ItemBits(c, t) <= rest && Refers(buf, t)
    ensures Decoded(c, items + [t], r, out, rest[|ItemBits(c, t)|..], Apply(buf, t))
  {
    hide ItemBits, Encodable, ItemsBits, Refers, Apply, Expand, AllRefer;
    ItemsSnoc(c, items, t);
    ExpandSnoc(out, items, t);
    PrefixSplit(ItemsBits(c, items), ItemBits(c, t), r);
  }

  lemma DecodedEnd(c: Codes, items: seq<Item>, r: seq<bool>, out: seq<Byte>, rest: seq<bool>, buf: seq<Byte>,
                   limit: nat)
    requires Decoded(c, items, r, out, rest, buf) && EndAt(c, rest) && |buf| <= limit
    ensures IsStream(c, items, r, out, limit)
    ensures rest[|EndBits(c)|..] == r[|ItemsBits(c, items) + EndBits(c)|..]
  {
    hide ItemsBits, EndBits, Expand, AllRefer;
    PrefixSplit(ItemsBits(c, items), EndBits(c), r);
  }

  lemma EmptyStream(c: Codes, plan: seq<Item>, r: seq<bool>, out: seq<Byte>, limit: nat)
    requires IsStream(c, plan, r, out, limit) && plan == []
    ensures EndAt(c, r)
  {
    assert ItemsBits(c, plan) + EndBits(c) == EndBits(c);
  }

  /** The next item decoded is the next item of any stream the bits start with. */
  lemma PlanMore(c: Codes, plan: seq<Item>, t: Item, r: seq<bool>, out: seq<Byte>, limit: nat)
    requires UsableCodes(c) && IsStream(c, plan, r, out, limit) && ItemAt(c, t, r, out, limit)
    ensures plan != [] && plan[0] == t
    ensures IsStream(c, plan[1..], r[|ItemBits(c, t)|..], Apply(out, t), limit)
  {
    hide ItemBits, Encodable, Refers, Apply, UsableCodes, CodeBits;
    if plan == [] {
      EmptyStream(c, plan, r, out, limit);
      FirstSymAtStart(c, t, r);
      NotTheEnd(c, r, FirstSym(t));
    } else {
      StreamTail(c, plan, r, out, limit);
      ItemUnique(c, t, plan[0], r);
    }
  }

  lemma PlanEnd(c: Codes, plan: seq<Item>, r: seq<bool>, out: seq<Byte>, limit: nat)
    requires UsableCodes(c) && IsStream(c, plan, r, out, limit) && EndAt(c, r)
    ensures plan == []
  {
    hide ItemBits, Encodable, Refers, Apply, UsableCodes, CodeBits;
    if plan != [] {
      StreamTail(c, plan, r, out, limit);
      FirstSymAtStart(c, plan[0], r);
      NotTheEnd(c, r, FirstSym(plan[0]));
    }
  }

  lemma PlanBad(c: Codes, plan: seq<Item>, r: seq<bool>, out: seq<Byte>, limit: nat)
    requires NothingAt(c, r, out, limit)
    ensures !IsStream(c, plan, r, out, limit)
  {
    hide ItemBits, Encodable, Refers, Apply, CodeBits;
    if IsStream(c, plan, r, out, limit) {
      if plan == [] {
        EmptyStream(c, plan, r, out, limit);
      } else {
        StreamTail(c, plan, r, out, limit);
      }
    }
  }

  /** dyn_inflate_codes: it succeeds exactly when the bits start with some items
      and the end-of-block code, and then those items are the only ones. */
  method InflateCodes(s: BitReader, o: OutBuf, lt: HuffTable, dt: HuffTable, ghost c: Codes, ghost plan: seq<Item>)
    returns (ok: bool, ghost items: seq<Item>)
    requires s.Valid() && !s.error && o.Valid() && UsableCodes(c) && TableFor(lt, c.ll) && TableFor(dt, c.dl)
    modifies s, o
    ensures s.Valid() && o.Valid()
    ensures ok ==> IsStream(c, items, old(s.Rest()), old(o.buf), o.limit)
    ensures ok ==> !s.error && o.buf == Expand(old(o.buf), items)
                   && s.Rest() == old(s.Rest())[|ItemsBits(c, items) + EndBits(c)|..]
    ensures IsStream(c, plan, old(s.Rest()), old(o.buf), o.limit) ==> ok && items == plan
  {
    hide Oversubscribed, IsTable, UsableCodes, NothingAt, EndAt, ItemAt, IsStream, Decoded, ItemBits, Encodable,
         Refers, Apply, s.Rest;
    ghost var r, out, left := s.Rest(), o.buf, plan;
    items := [];
    NothingDecoded(c, r, out);
    while true
      invariant s.Valid() && o.Valid() && !s.error
      invariant Decoded(c, items, r, out, s.Rest(), o.buf)
      invariant IsStream(c, plan, r, out, o.limit) ==>
                  items + left == plan && IsStream(c, left, s.Rest(), o.buf, o.limit)
      decreases |s.Rest()|
    {
      ghost var rest, buf := s.Rest(), o.buf;
      var step, item := NextItem(s, o, lt, dt, c);
      match step {
        case Bad =>
          PlanBad(c, left, rest, buf, o.limit);
          return false, items;
        case End =>
          if IsStream(c, plan, r, out, o.limit) { PlanEnd(c, left, rest, buf, o.limit); }
          DecodedEnd(c, items, r, out, rest, buf, o.limit);
          DecodedExpand(c, items, r, out, rest, buf);
          return true, items;
        case More =>
          ItemAtParts(c, item, rest, buf, o.limit);
          if IsStream(c, plan, r, out, o.limit) {
            PlanMore(c, left, item, rest, buf, o.limit);
            assert (items + [item]) + left[1..] == items + left;
            left := left[1..];
          }
          DecodedMore(c, items, item, r, out, rest, buf);
          items := items + [item];
      }
    }
  }

  lemma NothingDecoded(c: Codes, r: seq<bool>, out: seq<Byte>)
    ensures Decoded(c, [], r, out, r, out)
  {
  }

  lemma DecodedExpand(c: Codes, items: seq<Item>, r: seq<bool>, out: seq<Byte>, rest: seq<bool>, buf: seq<Byte>)
    requires Decoded(c, items, r, out, rest, buf)
    ensures AllEncodable(c, items) && AllRefer(out, items) && buf == Expand(out, items)
  {
  }

  lemma ItemAtParts(c: Codes, t: Item, r: seq<bool>, out: seq<Byte>, limit: nat)
    requires ItemAt(c, t, r, out, limit)
    ensures Encodable(c, t) && ItemBits(c, t) <= r && Refers(out, t) && |ItemBits(c, t)| > 0
  {
  }
}
