/** `Sha512`: the block function on 32-bit halves refines the one of section
  * 6.4.2 of FIPS 180-4 on 64-bit words. */
module Sha512 {
  import opened Utf8
  import opened Sha512Words
  import Table = Sha512Constants

  // ---------------------------------------------------------------- standard

  datatype Eight = Eight(a: bv64, b: bv64, c: bv64, d: bv64, e: bv64, f: bv64, g: bv64, h: bv64)

  /** One round. */
  function Round(v: Eight, k: bv64, w: bv64): Eight {
    var t1 := Plus(Plus(Plus(Plus(v.h, BigSigma1(v.e)), Choose(v.e, v.f, v.g)), k), w);
    var t2 := Plus(BigSigma0(v.a), Majority(v.a, v.b, v.c));
    Eight(Plus(t1, t2), v.a, v.b, v.c, Plus(v.d, t1), v.e, v.f, v.g)
  }

  /** Word `t` of the message schedule of a block. */
  function Schedule(m: seq<bv64>, t: nat): bv64
    requires |m| == 16
  {
    if t < 16 then m[t]
    else
      Plus(Plus(Plus(SmallSigma1(Schedule(m, t - 2)), Schedule(m, t - 7)),
        SmallSigma0(Schedule(m, t - 15))), Schedule(m, t - 16))
  }

  /** Round constant `t`. */
  function Constant(t: nat): bv64 {
    Join(Table.K(2 * t), Table.K(2 * t + 1))
  }

  function Rounds(v: Eight, m: seq<bv64>, t: nat): Eight
    requires |m| == 16
  {
    if t == 0 then v else Round(Rounds(v, m, t - 1), Constant(t - 1), Schedule(m, t - 1))
  }

  function PlusEight(x: Eight, y: Eight): Eight {
    Eight(Plus(x.a, y.a), Plus(x.b, y.b), Plus(x.c, y.c), Plus(x.d, y.d),
      Plus(x.e, y.e), Plus(x.f, y.f), Plus(x.g, y.g), Plus(x.h, y.h))
  }

  function Word(b0: bv8, b1: bv8, b2: bv8, b3: bv8, b4: bv8, b5: bv8, b6: bv8, b7: bv8): bv64 {
    (((((b0 as bv64) << 56) | ((b1 as bv64) << 48)) | (((b2 as bv64) << 40) | ((b3 as bv64) << 32)))
    | ((((b4 as bv64) << 24) | ((b5 as bv64) << 16)) | (((b6 as bv64) << 8) | (b7 as bv64))))
  }

  function WordAt(b: seq<Byte>, i: nat): bv64
    requires i + 8 <= |b|
  {
    Word(b[i] as bv8, b[i + 1] as bv8, b[i + 2] as bv8, b[i + 3] as bv8,
      b[i + 4] as bv8, b[i + 5] as bv8, b[i + 6] as bv8, b[i + 7] as bv8)
  }

  function Words(block: seq<Byte>): (m: seq<bv64>)
    requires |block| == 128
    ensures |m| == 16
  {
    seq(16, t requires 0 <= t < 16 => WordAt(block, 8 * t))
  }

  /** One block of the message. */
  function Compress(v: Eight, block: seq<Byte>): Eight
    requires |block| == 128
  {
    PlusEight(v, Rounds(v, Words(block), 80))
  }

  function CompressAll(v: Eight, blocks: seq<seq<Byte>>): Eight
    requires forall i :: 0 <= i < |blocks| ==> |blocks[i]| == 128
  {
    if blocks == [] then v
    else Compress(CompressAll(v, blocks[..|blocks| - 1]), blocks[|blocks| - 1])
  }

  function InitialValue(): Eight {
    var h := Table.Initial();
    Eight(Join(h[0], h[1]), Join(h[2], h[3]), Join(h[4], h[5]), Join(h[6], h[7]),
      Join(h[8], h[9]), Join(h[10], h[11]), Join(h[12], h[13]), Join(h[14], h[15]))
  }

  /** The bytes of a word, most significant first. */
  function WordBytes(x: bv64): seq<bv8> {
    HighBytes(x) + LowBytes(x)
  }

  function HighBytes(x: bv64): seq<bv8> {
    [((x >> 56) & 0xFF) as bv8, ((x >> 48) & 0xFF) as bv8, ((x >> 40) & 0xFF) as bv8, ((x >> 32) & 0xFF) as bv8]
  }

  function LowBytes(x: bv64): seq<bv8> {
    [((x >> 24) & 0xFF) as bv8, ((x >> 16) & 0xFF) as bv8, ((x >> 8) & 0xFF) as bv8, (x & 0xFF) as bv8]
  }

  function EightBytes(v: Eight): seq<bv8> {
    WordBytes(v.a) + WordBytes(v.b) + WordBytes(v.c) + WordBytes(v.d)
    + WordBytes(v.e) + WordBytes(v.f) + WordBytes(v.g) + WordBytes(v.h)
  }

  // ------------------------------------------------------------------ halves

  /** `readInt32BE` */
  function Int32(b0: bv8, b1: bv8, b2: bv8, b3: bv8): bv32 {
    (((b0 as bv32) << 24) | ((b1 as bv32) << 16)) | (((b2 as bv32) << 8) | (b3 as bv32))
  }

  function ReadInt32BE(b: seq<Byte>, i: nat): bv32
    requires i + 4 <= |b|
  {
    Int32(b[i] as bv8, b[i + 1] as bv8, b[i + 2] as bv8, b[i + 3] as bv8)
  }

  /** `writeInt32BE` */
  function Int32Bytes(x: bv32): seq<bv8> {
    [((x >> 24) & 0xFF) as bv8, ((x >> 16) & 0xFF) as bv8, ((x >> 8) & 0xFF) as bv8, (x & 0xFF) as bv8]
  }

  lemma ReadHalves(b: seq<Byte>, i: nat)
    requires i + 8 <= |b|
    ensures Join(ReadInt32BE(b, i), ReadInt32BE(b, i + 4)) == WordAt(b, i)
  {
    hide Join, Int32, Word;
    IntHalves(b[i] as bv8, b[i + 1] as bv8, b[i + 2] as bv8, b[i + 3] as bv8,
      b[i + 4] as bv8, b[i + 5] as bv8, b[i + 6] as bv8, b[i + 7] as bv8);
  }

  lemma IntHalves(b0: bv8, b1: bv8, b2: bv8, b3: bv8, b4: bv8, b5: bv8, b6: bv8, b7: bv8)
    ensures Join(Int32(b0, b1, b2, b3), Int32(b4, b5, b6, b7)) == Word(b0, b1, b2, b3, b4, b5, b6, b7)
  {}

  lemma WriteHalves(h: bv32, l: bv32)
    ensures Int32Bytes(h) + Int32Bytes(l) == WordBytes(Join(h, l))
  {
    hide Join, Int32Bytes, HighBytes, LowBytes;
    WriteHigh(Join(h, l), h, l);
    WriteLow(Join(h, l), h, l);
  }

  lemma WriteHigh(x: bv64, h: bv32, l: bv32)
    requires x == Join(h, l)
    ensures HighBytes(x) == Int32Bytes(h)
  {
    HighByte(x, h, l);
    hide Join;
  }

  lemma HighByte(x: bv64, h: bv32, l: bv32)
    requires x == Join(h, l)
    ensures ((x >> 56) & 0xFF) as bv8 == ((h >> 24) & 0xFF) as bv8
    ensures ((x >> 48) & 0xFF) as bv8 == ((h >> 16) & 0xFF) as bv8
    ensures ((x >> 40) & 0xFF) as bv8 == ((h >> 8) & 0xFF) as bv8
    ensures ((x >> 32) & 0xFF) as bv8 == (h & 0xFF) as bv8
  {}

  lemma WriteLow(x: bv64, h: bv32, l: bv32)
    requires x == Join(h, l)
    ensures LowBytes(x) == Int32Bytes(l)
  {
    LowByte(x, h, l);
    hide Join;
  }

  lemma LowByte(x: bv64, h: bv32, l: bv32)
    requires x == Join(h, l)
    ensures ((x >> 24) & 0xFF) as bv8 == ((l >> 24) & 0xFF) as bv8
    ensures ((x >> 16) & 0xFF) as bv8 == ((l >> 16) & 0xFF) as bv8
    ensures ((x >> 8) & 0xFF) as bv8 == ((l >> 8) & 0xFF) as bv8
    ensures (x & 0xFF) as bv8 == (l & 0xFF) as bv8
  {}

  /** The sum of four words as the schedule loop forms it. */
  lemma Reorder(p: bv64, q: bv64, r: bv64)
    ensures Plus(Plus(p, q), r) == Plus(Plus(r, q), p)
  {
    hide *;
    PlusIs(p, q);
    PlusIs(Plus(q, p), r);
    Associative(r, q, p);
  }

  // ------------------------------------------------------------------ Sha512

  class Sha512 {
    var ah: bv32
    var al: bv32
    var bh: bv32
    var bl: bv32
    var ch: bv32
    var cl: bv32
    var dh: bv32
    var dl: bv32
    var eh: bv32
    var el: bv32
    var fh: bv32
    var fl: bv32
    var gh: bv32
    var gl: bv32
    var hh: bv32
    var hl: bv32
    const w: array<bv32>

    ghost function Value(): Eight
      reads this
    {
      Eight(Join(ah, al), Join(bh, bl), Join(ch, cl), Join(dh, dl),
        Join(eh, el), Join(fh, fl), Join(gh, gl), Join(hh, hl))
    }

    /** `init`, over the array of 160 halves that the module shares. */
    constructor (w: array<bv32>)
      ensures this.w == w && Value() == InitialValue()
    {
      hide Join;
      this.w := w;
      var i := Table.Initial();
      ah, al, bh, bl := i[0], i[1], i[2], i[3];
      ch, cl, dh, dl := i[4], i[5], i[6], i[7];
      eh, el, fh, fl := i[8], i[9], i[10], i[11];
      gh, gl, hh, hl := i[12], i[13], i[14], i[15];
    }

    /** The first loops of `_update`: the message schedule. */
    method Fill(block: seq<Byte>)
      requires |block| == 128 && w.Length == 160
      modifies w
      ensures Scheduled(w[..], Words(block), 80)
    {
      hide *;
      var v := 0;
      ghost var m := Words(block);
      NoneScheduled(w[..], m);
      while v < 32
        invariant v <= 32 && v % 2 == 0
        invariant Scheduled(w[..], m, v / 2)
      {
        ghost var before := w[..];
        w[v] := ReadInt32BE(block, 4 * v);
        w[v + 1] := ReadInt32BE(block, 4 * v + 4);
        FirstWords(block, v / 2);
        ScheduledStep(before, w[..], m, v / 2);
        v := v + 2;
      }
      while v < 160
        invariant 32 <= v <= 160 && v % 2 == 0
        invariant Scheduled(w[..], m, v / 2)
      {
        ghost var before := w[..];
        var b, l := w[v - 30], w[v - 29];
        var g0, g0l := Gamma0(b, l), Gamma0l(l, b);
        Gamma0Halves(b, l);
        b, l := w[v - 4], w[v - 3];
        var g1, g1l := Gamma1(b, l), Gamma1l(l, b);
        Gamma1Halves(b, l);
        var w7, w7l := w[v - 14], w[v - 13];
        var w16, w16l := w[v - 32], w[v - 31];

        var sl := Add(g0l, w7l);
        var s := Add(Add(g0, w7), Carry(sl, g0l));
        SumFirst(g0, g0l, w7, w7l);
        Sum(s, sl, g1, g1l);
        sl := Add(sl, g1l);
        s := Add(Add(s, g1), Carry(sl, g1l));
        Sum(s, sl, w16, w16l);
        sl := Add(sl, w16l);
        s := Add(Add(s, w16), Carry(sl, w16l));
        w[v] := s;
        w[v + 1] := sl;

        LaterWords(before, m, v / 2);
        ScheduledStep(before, w[..], m, v / 2);
        v := v + 2;
      }
    }

    /** The 80 rounds. */
    method RunRounds(ghost m: seq<bv64>)
      returns (ah: bv32, al: bv32, bh: bv32, bl: bv32, ch: bv32, cl: bv32, dh: bv32, dl: bv32,
               eh: bv32, el: bv32, fh: bv32, fl: bv32, gh: bv32, gl: bv32, hh: bv32, hl: bv32)
      requires |m| == 16 && w.Length == 160 && Scheduled(w[..], m, 80)
      ensures Eight(Join(ah, al), Join(bh, bl), Join(ch, cl), Join(dh, dl),
        Join(eh, el), Join(fh, fl), Join(gh, gl), Join(hh, hl)) == Rounds(Value(), m, 80)
    {
      hide *;
      ah, al, bh, bl, ch, cl, dh, dl := this.ah, this.al, this.bh, this.bl, this.ch, this.cl, this.dh, this.dl;
      eh, el, fh, fl, gh, gl, hh, hl := this.eh, this.el, this.fh, this.fl, this.gh, this.gl, this.hh, this.hl;
      NoRounds(Value(), m);
      ValueIs(this);
      var t := 0;
      while t < 160
        invariant t <= 160 && t % 2 == 0
        invariant Eight(Join(ah, al), Join(bh, bl), Join(ch, cl), Join(dh, dl),
          Join(eh, el), Join(fh, fl), Join(gh, gl), Join(hh, hl)) == Rounds(Value(), m, t / 2)
      {
        var t1, t1l := FirstSum(eh, el, fh, fl, gh, gl, hh, hl, Table.K(t), Table.K(t + 1), w[t], w[t + 1]);
        var t2, t2l := SecondSum(ah, al, bh, bl, ch, cl);
        SumFirst(dh, dl, t1, t1l);
        SumFirst(t1, t1l, t2, t2l);
        RoundsStep(w[..], Value(), m, t / 2);
        hh, hl := gh, gl;
        gh, gl := fh, fl;
        fh, fl := eh, el;
        el := Add(dl, t1l);
        eh := Add(Add(dh, t1), Carry(el, dl));
        dh, dl := ch, cl;
        ch, cl := bh, bl;
        bh, bl := ah, al;
        al := Add(t1l, t2l);
        ah := Add(Add(t1, t2), Carry(al, t1l));
        t := t + 2;
      }
    }

    /** `_update` */
    method Update(block: seq<Byte>)
      requires |block| == 128 && w.Length == 160
      modifies this, w
      ensures Value() == Compress(old(Value()), block)
    {
      hide *;
      Fill(block);
      ValueParts(this);
      var ah, al, bh, bl, ch, cl, dh, dl, eh, el, fh, fl, gh, gl, hh, hl := RunRounds(Words(block));
      Finish(ah, al, bh, bl, ch, cl, dh, dl, eh, el, fh, fl, gh, gl, hh, hl);
      ValueParts(this);
      CompressIs(old(Value()), block, Value());
    }

    /** The sums that end `_update`. */
    method Finish(ah: bv32, al: bv32, bh: bv32, bl: bv32, ch: bv32, cl: bv32, dh: bv32, dl: bv32,
                  eh: bv32, el: bv32, fh: bv32, fl: bv32, gh: bv32, gl: bv32, hh: bv32, hl: bv32)
      modifies this
      ensures Join(this.ah, this.al) == Plus(old(Join(this.ah, this.al)), Join(ah, al))
      ensures Join(this.bh, this.bl) == Plus(old(Join(this.bh, this.bl)), Join(bh, bl))
      ensures Join(this.ch, this.cl) == Plus(old(Join(this.ch, this.cl)), Join(ch, cl))
      ensures Join(this.dh, this.dl) == Plus(old(Join(this.dh, this.dl)), Join(dh, dl))
      ensures Join(this.eh, this.el) == Plus(old(Join(this.eh, this.el)), Join(eh, el))
      ensures Join(this.fh, this.fl) == Plus(old(Join(this.fh, this.fl)), Join(fh, fl))
      ensures Join(this.gh, this.gl) == Plus(old(Join(this.gh, this.gl)), Join(gh, gl))
      ensures Join(this.hh, this.hl) == Plus(old(Join(this.hh, this.hl)), Join(hh, hl))
    {
      hide *;
      AddFirst(ah, al, bh, bl, ch, cl, dh, dl);
      AddLast(eh, el, fh, fl, gh, gl, hh, hl);
    }

    method AddFirst(ah: bv32, al: bv32, bh: bv32, bl: bv32, ch: bv32, cl: bv32, dh: bv32, dl: bv32)
      modifies this`ah, this`al, this`bh, this`bl, this`ch, this`cl, this`dh, this`dl
      ensures Join(this.ah, this.al) == Plus(old(Join(this.ah, this.al)), Join(ah, al))
      ensures Join(this.bh, this.bl) == Plus(old(Join(this.bh, this.bl)), Join(bh, bl))
      ensures Join(this.ch, this.cl) == Plus(old(Join(this.ch, this.cl)), Join(ch, cl))
      ensures Join(this.dh, this.dl) == Plus(old(Join(this.dh, this.dl)), Join(dh, dl))
    {
      hide *;
      Sum(this.ah, this.al, ah, al);
      Sum(this.bh, this.bl, bh, bl);
      Sum(this.ch, this.cl, ch, cl);
      Sum(this.dh, this.dl, dh, dl);
      this.al := Add(this.al, al);
      this.bl := Add(this.bl, bl);
      this.cl := Add(this.cl, cl);
      this.dl := Add(this.dl, dl);
      this.ah := Add(Add(this.ah, ah), Carry(this.al, al));
      this.bh := Add(Add(this.bh, bh), Carry(this.bl, bl));
      this.ch := Add(Add(this.ch, ch), Carry(this.cl, cl));
      this.dh := Add(Add(this.dh, dh), Carry(this.dl, dl));
    }

    method AddLast(eh: bv32, el: bv32, fh: bv32, fl: bv32, gh: bv32, gl: bv32, hh: bv32, hl: bv32)
      modifies this`eh, this`el, this`fh, this`fl, this`gh, this`gl, this`hh, this`hl
      ensures Join(this.eh, this.el) == Plus(old(Join(this.eh, this.el)), Join(eh, el))
      ensures Join(this.fh, this.fl) == Plus(old(Join(this.fh, this.fl)), Join(fh, fl))
      ensures Join(this.gh, this.gl) == Plus(old(Join(this.gh, this.gl)), Join(gh, gl))
      ensures Join(this.hh, this.hl) == Plus(old(Join(this.hh, this.hl)), Join(hh, hl))
    {
      hide *;
      Sum(this.eh, this.el, eh, el);
      Sum(this.fh, this.fl, fh, fl);
      Sum(this.gh, this.gl, gh, gl);
      Sum(this.hh, this.hl, hh, hl);
      this.el := Add(this.el, el);
      this.fl := Add(this.fl, fl);
      this.gl := Add(this.gl, gl);
      this.hl := Add(this.hl, hl);
      this.eh := Add(Add(this.eh, eh), Carry(this.el, el));
      this.fh := Add(Add(this.fh, fh), Carry(this.fl, fl));
      this.gh := Add(Add(this.gh, gh), Carry(this.gl, gl));
      this.hh := Add(Add(this.hh, hh), Carry(this.hl, hl));
    }

    /** `_hash` */
    method Bytes() returns (b: seq<bv8>)
      ensures b == EightBytes(Value())
    {
      hide *;
      b := Int32Bytes(ah) + Int32Bytes(al);
      b := b + (Int32Bytes(bh) + Int32Bytes(bl));
      b := b + (Int32Bytes(ch) + Int32Bytes(cl));
      b := b + (Int32Bytes(dh) + Int32Bytes(dl));
      b := b + (Int32Bytes(eh) + Int32Bytes(el));
      b := b + (Int32Bytes(fh) + Int32Bytes(fl));
      b := b + (Int32Bytes(gh) + Int32Bytes(gl));
      b := b + (Int32Bytes(hh) + Int32Bytes(hl));
      WriteHalves(ah, al);
      WriteHalves(bh, bl);
      WriteHalves(ch, cl);
      WriteHalves(dh, dl);
      WriteHalves(eh, el);
      WriteHalves(fh, fl);
      WriteHalves(gh, gl);
      WriteHalves(hh, hl);
      ValueIs(this);
      EightBytesIs(Value());
    }
  }

  lemma ValueIs(s: Sha512)
    ensures s.Value() == Eight(Join(s.ah, s.al), Join(s.bh, s.bl), Join(s.ch, s.cl), Join(s.dh, s.dl),
      Join(s.eh, s.el), Join(s.fh, s.fl), Join(s.gh, s.gl), Join(s.hh, s.hl))
  {
    hide Join;
  }

  /** The first sum of a round: its summands come one after the other, each
    * with its carry. */
  method FirstSum(eh: bv32, el: bv32, fh: bv32, fl: bv32, gh: bv32, gl: bv32, hh: bv32, hl: bv32,
                  k: bv32, kl: bv32, w: bv32, wl: bv32)
    returns (s: bv32, sl: bv32)
    ensures Join(s, sl)
         == Plus(Plus(Plus(Plus(Join(hh, hl), BigSigma1(Join(eh, el))),
              Choose(Join(eh, el), Join(fh, fl), Join(gh, gl))), Join(k, kl)), Join(w, wl))
  {
    hide *;
    var s1, s1l := Sigma1(eh, el), Sigma1(el, eh);
    Sigma1Halves(eh, el);
    var c, c_l := Ch(eh, fh, gh), Ch(el, fl, gl);
    ChHalves(eh, el, fh, fl, gh, gl);
    SumFirst(hh, hl, s1, s1l);
    sl := Add(hl, s1l);
    s := Add(Add(hh, s1), Carry(sl, hl));
    Sum(s, sl, c, c_l);
    sl := Add(sl, c_l);
    s := Add(Add(s, c), Carry(sl, c_l));
    Sum(s, sl, k, kl);
    sl := Add(sl, kl);
    s := Add(Add(s, k), Carry(sl, kl));
    Sum(s, sl, w, wl);
    sl := Add(sl, wl);
    s := Add(Add(s, w), Carry(sl, wl));
  }

  method SecondSum(ah: bv32, al: bv32, bh: bv32, bl: bv32, ch: bv32, cl: bv32) returns (s: bv32, sl: bv32)
    ensures Join(s, sl) == Plus(BigSigma0(Join(ah, al)), Majority(Join(ah, al), Join(bh, bl), Join(ch, cl)))
  {
    hide *;
    var m, ml := Maj(ah, bh, ch), Maj(al, bl, cl);
    MajHalves(ah, al, bh, bl, ch, cl);
    var s0, s0l := Sigma0(ah, al), Sigma0(al, ah);
    Sigma0Halves(ah, al);
    SumFirst(s0, s0l, m, ml);
    sl := Add(s0l, ml);
    s := Add(Add(s0, m), Carry(sl, s0l));
  }

  lemma ValueParts(s: Sha512)
    ensures s.Value().a == Join(s.ah, s.al)
    ensures s.Value().b == Join(s.bh, s.bl)
    ensures s.Value().c == Join(s.ch, s.cl)
    ensures s.Value().d == Join(s.dh, s.dl)
    ensures s.Value().e == Join(s.eh, s.el)
    ensures s.Value().f == Join(s.fh, s.fl)
    ensures s.Value().g == Join(s.gh, s.gl)
    ensures s.Value().h == Join(s.hh, s.hl)
  {
    hide Join;
  }

  lemma NoRounds(v: Eight, m: seq<bv64>)
    requires |m| == 16
    ensures Rounds(v, m, 0) == v
  {}

  lemma RoundsStep(w: seq<bv32>, v: Eight, m: seq<bv64>, t: nat)
    requires |m| == 16 && Scheduled(w, m, 80) && t < 80 && |w| == 160
    ensures var x := Rounds(v, m, t);
      var t1 := Plus(Plus(Plus(Plus(x.h, BigSigma1(x.e)), Choose(x.e, x.f, x.g)),
        Join(Table.K(2 * t), Table.K(2 * t + 1))), Join(w[2 * t], w[2 * t + 1]));
      var t2 := Plus(BigSigma0(x.a), Majority(x.a, x.b, x.c));
      Rounds(v, m, t + 1) == Eight(Plus(t1, t2), x.a, x.b, x.c, Plus(x.d, t1), x.e, x.f, x.g)
  {
    hide Join, Table.K, Plus, BigSigma0, BigSigma1, Choose, Majority;
  }

  lemma CompressIs(v: Eight, block: seq<Byte>, r: Eight)
    requires |block| == 128
    requires var x := Rounds(v, Words(block), 80);
      && r.a == Plus(v.a, x.a) && r.b == Plus(v.b, x.b) && r.c == Plus(v.c, x.c) && r.d == Plus(v.d, x.d)
      && r.e == Plus(v.e, x.e) && r.f == Plus(v.f, x.f) && r.g == Plus(v.g, x.g) && r.h == Plus(v.h, x.h)
    ensures r == Compress(v, block)
  {
    hide Plus, Rounds, Words;
  }

  lemma EightBytesIs(v: Eight)
    ensures EightBytes(v)
         == WordBytes(v.a) + WordBytes(v.b) + WordBytes(v.c) + WordBytes(v.d)
          + WordBytes(v.e) + WordBytes(v.f) + WordBytes(v.g) + WordBytes(v.h)
  {
    hide WordBytes;
  }

  /** The first `n` pairs of halves are the first `n` words of the schedule. */
  ghost predicate Scheduled(w: seq<bv32>, m: seq<bv64>, n: nat)
    requires |m| == 16
  {
    2 * n <= |w| && forall t :: 0 <= t < n ==> Join(w[2 * t], w[2 * t + 1]) == Schedule(m, t)
  }

  lemma NoneScheduled(w: seq<bv32>, m: seq<bv64>)
    requires |m| == 16
    ensures Scheduled(w, m, 0)
  {}

  lemma ScheduledStep(before: seq<bv32>, w: seq<bv32>, m: seq<bv64>, n: nat)
    requires |m| == 16 && Scheduled(before, m, n) && 2 * n + 1 < |before| == |w|
    requires forall i :: 0 <= i < 2 * n ==> w[i] == before[i]
    requires Join(w[2 * n], w[2 * n + 1]) == Schedule(m, n)
    ensures Scheduled(w, m, n + 1)
  {
    hide Join, Schedule;
  }

  lemma FirstWords(block: seq<Byte>, t: nat)
    requires |block| == 128 && t < 16
    ensures Join(ReadInt32BE(block, 8 * t), ReadInt32BE(block, 8 * t + 4)) == Schedule(Words(block), t)
  {
    hide Join, ReadInt32BE, WordAt;
    ReadHalves(block, 8 * t);
  }

  lemma LaterWords(w: seq<bv32>, m: seq<bv64>, t: nat)
    requires |m| == 16 && 16 <= t && Scheduled(w, m, t)
    ensures var x0, x7 := Join(w[2 * t - 30], w[2 * t - 29]), Join(w[2 * t - 14], w[2 * t - 13]);
      var x1, x16 := Join(w[2 * t - 4], w[2 * t - 3]), Join(w[2 * t - 32], w[2 * t - 31]);
      Schedule(m, t) == Plus(Plus(Plus(SmallSigma0(x0), x7), SmallSigma1(x1)), x16)
  {
    hide Join, Plus, SmallSigma0, SmallSigma1;
    Reorder(SmallSigma0(Schedule(m, t - 15)), Schedule(m, t - 7), SmallSigma1(Schedule(m, t - 2)));
  }

  // ------------------------------------------------------------- more blocks

  lemma CompressMore(v: Eight, blocks: seq<seq<Byte>>, block: seq<Byte>)
    requires |block| == 128 && forall k :: 0 <= k < |blocks| ==> |blocks[k]| == 128
    ensures CompressAll(v, blocks + [block]) == Compress(CompressAll(v, blocks), block)
  {
    assert (blocks + [block])[..|blocks|] == blocks;
  }
}
