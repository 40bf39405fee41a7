/** The bytes of user memory, four to a word, least significant first. (kernel/vm.c: uva2ka, copyout) */
module PageBytes {
  import opened CTypes
  import opened VmSpec

  function Scale(j: nat): nat { if j == 0 then 1 else if j == 1 then 0x100 else if j == 2 then 0x1_0000 else 0x100_0000 }

  function Digit(w: nat, j: nat): Byte { w / Scale(j) % 256 }

  function WithDigit(w: nat, j: nat, x: Byte): nat {
    w - Digit(w, j) * Scale(j) + x * Scale(j)
  }

  /** Byte k of a page. */
  function ByteAt(b: Page, k: nat): Byte
    requires k < PGSIZE
  {
    Digit(b[k / 4], k % 4)
  }

  function SetByte(b: Page, k: nat, x: Byte): Page
    requires k < PGSIZE
  {
    b[k / 4 := WithDigit(b[k / 4], k % 4, x)]
  }

  function Sum(a: Byte, b: Byte, c: Byte, h: nat): nat { a + 0x100 * b + 0x1_0000 * c + 0x100_0000 * h }

  lemma SumDigits(a: Byte, b: Byte, c: Byte, h: nat)
    ensures var w := Sum(a, b, c, h);
            w / 0x100 == b + 0x100 * c + 0x1_0000 * h && w / 0x1_0000 == c + 0x100 * h && w / 0x100_0000 == h
    ensures Digit(Sum(a, b, c, h), 0) == a && Digit(Sum(a, b, c, h), 1) == b
    ensures Digit(Sum(a, b, c, h), 2) == c && Digit(Sum(a, b, c, h), 3) == h % 256
  {}

  lemma DigitsSum(w: nat)
    ensures w == Sum(Digit(w, 0), Digit(w, 1), Digit(w, 2), w / 0x100_0000)
  {
    var q1, q2, q3 := w / 0x100, w / 0x1_0000, w / 0x100_0000;
    assert q2 == q1 / 0x100 && q3 == q2 / 0x100;
  }

  /** The bytes of a 32-bit word of memory, least significant first. */
  lemma LittleEndian(b: Page, k: nat)
    requires k < NENTRIES && b[k] < UINT
    ensures b[k] == ByteAt(b, 4 * k) as nat + 256 * ByteAt(b, 4 * k + 1) as nat + 65536 * ByteAt(b, 4 * k + 2) as nat
                    + 16777216 * ByteAt(b, 4 * k + 3) as nat
  {
    hide Digit, Sum;
    Quarter(b, k, 0);
    Quarter(b, k, 1);
    Quarter(b, k, 2);
    Quarter(b, k, 3);
    TopDigit(b[k]);
    DigitsSum(b[k]);
    SumIs(Digit(b[k], 0), Digit(b[k], 1), Digit(b[k], 2), b[k] / 0x100_0000);
  }

  lemma Quarter(b: Page, k: nat, j: nat)
    requires k < NENTRIES && j < 4
    ensures 4 * k + j < PGSIZE && ByteAt(b, 4 * k + j) == Digit(b[k], j)
  {
    assert (4 * k + j) / 4 == k && (4 * k + j) % 4 == j;
  }

  lemma TopDigit(w: nat)
    requires w < UINT
    ensures Digit(w, 3) == w / 0x100_0000
  {}

  lemma SumIs(a: Byte, b: Byte, c: Byte, h: nat)
    ensures Sum(a, b, c, h) == a as nat + 256 * b as nat + 65536 * c as nat + 16777216 * h
  {}

  lemma DigitSet(w: nat, j: nat, x: Byte, i: nat)
    requires i < 4 && j < 4
    ensures Digit(WithDigit(w, j, x), i) == if i == j then x else Digit(w, i)
  {
    hide WithDigit, Sum, Digit;
    var a, b, c, h := Digit(w, 0), Digit(w, 1), Digit(w, 2), w / 0x100_0000;
    DigitsSum(w);
    SumDigits(a, b, c, h);
    var h': nat := h - h % 256 + x;
    SumDigits(x, b, c, h);
    SumDigits(a, x, c, h);
    SumDigits(a, b, x, h);
    SumDigits(a, b, c, h');
    WithDigitIs(w, j, x, a, b, c, h);
  }

  lemma WithDigitIs(w: nat, j: nat, x: Byte, a: Byte, b: Byte, c: Byte, h: nat)
    requires j < 4 && w == Sum(a, b, c, h)
    requires Digit(w, 0) == a && Digit(w, 1) == b && Digit(w, 2) == c && Digit(w, 3) == h % 256
    ensures WithDigit(w, j, x) == if j == 0 then Sum(x, b, c, h) else if j == 1 then Sum(a, x, c, h)
                                  else if j == 2 then Sum(a, b, x, h) else Sum(a, b, c, h - h % 256 + x)
  {
    hide Digit;
  }

  lemma SetByteAt(b: Page, k: nat, x: Byte, m: nat)
    requires k < PGSIZE && m < PGSIZE
    ensures ByteAt(SetByte(b, k, x), m) == if m == k then x else ByteAt(b, m)
  {
    hide Digit, WithDigit;
    DigitSet(b[k / 4], k % 4, x, m % 4);
    assert m == k <==> m / 4 == k / 4 && m % 4 == k % 4;
  }

  /** memmove into a page. */
  function SetBytes(b: Page, o: nat, bytes: seq<Byte>): Page
    requires o + |bytes| <= PGSIZE
    decreases |bytes|
  {
    if bytes == [] then b else SetByte(SetBytes(b, o, bytes[..|bytes|-1]), o + |bytes| - 1, bytes[|bytes|-1])
  }

  lemma SetBytesLast(b: Page, o: nat, bytes: seq<Byte>)
    requires o + |bytes| <= PGSIZE && bytes != []
    ensures SetBytes(b, o, bytes) == SetByte(SetBytes(b, o, bytes[..|bytes|-1]), o + |bytes| - 1, bytes[|bytes|-1])
  {}

  lemma {:induction false} SetBytesAt(b: Page, o: nat, bytes: seq<Byte>, m: nat)
    requires o + |bytes| <= PGSIZE && m < PGSIZE
    ensures ByteAt(SetBytes(b, o, bytes), m) == if o <= m < o + |bytes| then bytes[m - o] else ByteAt(b, m)
    decreases |bytes|
  {
    if bytes != [] {
      hide ByteAt, SetByte, SetBytes;
      var n := |bytes| - 1;
      SetBytesLast(b, o, bytes);
      SetBytesAt(b, o, bytes[..n], m);
      SetByteAt(SetBytes(b, o, bytes[..n]), o + n, bytes[n], m);
    }
  }

  /** A present page that user code may use. */
  ghost predicate IsUser(sp: Space, p: nat) { p in sp.ptes && p < UPAGES && FrameOf(sp.ptes[p]) < NFRAMES }

  /** The byte at a user address. */
  ghost function UserByte(ram: Ram, sp: Space, a: nat): Byte
    requires IsUser(sp, a / PGSIZE)
  {
    ByteAt(ram[FrameOf(sp.ptes[a / PGSIZE])], a % PGSIZE)
  }

  /** User memory after bytes were stored from va on. */
  ghost predicate Stored(ram0: Ram, ram: Ram, sp: Space, va: nat, bytes: seq<Byte>) {
    forall a: nat :: IsUser(sp, a / PGSIZE) ==>
      UserByte(ram, sp, a) == if va <= a < va + |bytes| then bytes[a - va] else UserByte(ram0, sp, a)
  }

  lemma StoredNone(ram: Ram, sp: Space, va: nat)
    ensures Stored(ram, ram, sp, va, [])
  {}

  /** One more piece, inside one page. */
  lemma StoredMore(ram0: Ram, ram: Ram, sp: Space, va: nat, done: seq<Byte>, piece: seq<Byte>, free: seq<nat>, first: nat)
    requires Stored(ram0, ram, sp, va, done) && Private(sp, free, first)
    requires var c := va + |done|; IsUser(sp, c / PGSIZE) && c % PGSIZE + |piece| <= PGSIZE
    ensures var c := va + |done|; var f := FrameOf(sp.ptes[c / PGSIZE]);
            Stored(ram0, ram[f := SetBytes(ram[f], c % PGSIZE, piece)], sp, va, done + piece)
  {
    var c := va + |done|;
    var q, o, f := c / PGSIZE, c % PGSIZE, FrameOf(sp.ptes[c / PGSIZE]);
    var ram' := ram[f := SetBytes(ram[f], o, piece)];
    forall a: nat | IsUser(sp, a / PGSIZE)
      ensures UserByte(ram', sp, a) == if va <= a < va + |done + piece| then (done + piece)[a - va] else UserByte(ram0, sp, a)
    {
      StoredByte(ram0, ram, sp, va, done, piece, free, first, c, q, o, f, a);
    }
  }

  lemma StoredByte(ram0: Ram, ram: Ram, sp: Space, va: nat, done: seq<Byte>, piece: seq<Byte>, free: seq<nat>, first: nat,
                   c: nat, q: nat, o: nat, f: nat, a: nat)
    requires Stored(ram0, ram, sp, va, done) && Private(sp, free, first) && IsUser(sp, a / PGSIZE) && IsUser(sp, q)
    requires c == va + |done| == q * PGSIZE + o && o + |piece| <= PGSIZE && f == FrameOf(sp.ptes[q])
    ensures UserByte(ram[f := SetBytes(ram[f], o, piece)], sp, a)
         == if va <= a < va + |done + piece| then (done + piece)[a - va] else UserByte(ram0, sp, a)
  {
    hide ByteAt, SetBytes;
    var p, m := a / PGSIZE, a % PGSIZE;
    assert a == p * PGSIZE + m;
    if p == q { SetBytesAt(ram[f], o, piece, m); }
    assert p != q ==> FrameOf(sp.ptes[p]) != f;
    assert UserByte(ram, sp, a) == if va <= a < va + |done| then done[a - va] else UserByte(ram0, sp, a);
  }
}
