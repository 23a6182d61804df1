/** Products, quotients and remainders under names, so that proofs can use their
    laws without their definitions. */
module Arithmetic {

  function Times(a: int, b: int): int { a * b }

  function Quo(a: nat, b: nat): nat
    requires b > 0
  {
    a / b
  }

  function Rem(a: nat, b: nat): (r: nat)
    requires b > 0
    ensures r < b
  {
    a % b
  }

  lemma QuoRem(a: nat, b: nat)
    requires b > 0
    ensures a == Times(Quo(a, b), b) + Rem(a, b)
  {
  }

  lemma Distribute(a: int, b: int, c: int)
    ensures Times(a + b, c) == Times(a, c) + Times(b, c)
    ensures Times(c, a + b) == Times(c, a) + Times(c, b)
  {
  }

  lemma Regroup(a: int, b: int, c: int)
    ensures Times(Times(a, b), c) == Times(a, Times(b, c))
  {
    assert (a * b) * c == a * (b * c);
  }

  lemma Unit(a: int)
    ensures Times(0, a) == Times(a, 0) == 0 && Times(1, a) == a
  {
  }

  lemma Grows(a: nat, b: nat)
    ensures Times(a, b) >= 0
    ensures b > 0 ==> Times(a, b) >= a
    ensures a > 0 ==> Times(a, b) >= b
  {
    if b > 0 { assert a * b == a * (b - 1) + a && a * (b - 1) >= 0; }
    if a > 0 { assert a * b == (a - 1) * b + b && (a - 1) * b >= 0; }
  }

  /** Quotient and remainder are determined by their defining equation. */
  lemma Determined(a: nat, b: nat, q: nat, r: nat)
    requires b > 0 && r < b && a == Times(q, b) + r
    ensures Quo(a, b) == q && Rem(a, b) == r
  {
    hide Times, Quo, Rem;
    QuoRem(a, b);
    var q' := Quo(a, b);
    if q < q' {
      Distribute(q, q' - q, b);
      Grows(q' - q, b);
    } else if q' < q {
      Distribute(q', q - q', b);
      Grows(q - q', b);
    }
  }
}

/** Where the extents of an encrypted file lie in the lower file, and the loop
    that encrypts one page into it (src/utils/test.c). Machine integers are
    taken as unbounded. */
module Extents {
  import opened Arithmetic

  datatype CryptStat = CryptStat(headerExtentSize: nat, numHeaderExtents: nat, extentSize: nat) {
    function HeaderBytes(): nat { headerExtentSize * numHeaderExtents }
  }

  /** A position in the lower file: a page and an offset in it. */
  datatype Position = Position(page: nat, offset: int)

  function Address(p: Position, pageSize: nat): int { Times(p.page, pageSize) + p.offset }

  /** The caller has chosen a nonzero extent size that fits into a page. */
  predicate Usable(cs: CryptStat, pageSize: nat) {
    0 < cs.extentSize <= pageSize && Quo(pageSize, cs.extentSize) > 0
  }

  /** The extent's number counted from the start of the lower file. */
  function LowerExtent(cs: CryptStat, extent: nat): nat
    requires cs.extentSize > 0
  {
    Quo(cs.HeaderBytes(), cs.extentSize) + extent
  }

  /** ecryptfs_extent_to_lwr_pg_idx_and_offset */
  function ExtentToLower(cs: CryptStat, extent: nat, pageSize: nat): Position
    requires Usable(cs, pageSize)
  {
    var perPage := Quo(pageSize, cs.extentSize);
    var lower := LowerExtent(cs, extent);
    Position(Quo(lower, perPage), Times(Rem(lower, perPage), cs.extentSize))
  }

  /* ---- the address of an extent ---- */

  /** In general an extent sits at its lower number times the extent size, plus
      what every page before it leaves unused. */
  lemma AddressInGeneral(cs: CryptStat, extent: nat, pageSize: nat)
    requires Usable(cs, pageSize)
    ensures var e := cs.extentSize;
      var lower := LowerExtent(cs, extent);
      Address(ExtentToLower(cs, extent, pageSize), pageSize)
      == Times(lower, e) + Times(Quo(lower, Quo(pageSize, e)), Rem(pageSize, e))
  {
    hide Times, Quo, Rem;
    var e := cs.extentSize;
    var n := Quo(pageSize, e);
    var lower := LowerExtent(cs, extent);
    var q, r := Quo(lower, n), Rem(lower, n);
    QuoRem(pageSize, e);
    QuoRem(lower, n);
    Distribute(Times(n, e), Rem(pageSize, e), q);
    Regroup(q, n, e);
    Distribute(Times(q, n), r, e);
  }

  ghost predicate Exact(cs: CryptStat, pageSize: nat, extent: nat)
    requires Usable(cs, pageSize)
  {
    Address(ExtentToLower(cs, extent, pageSize), pageSize) == cs.HeaderBytes() + Times(extent, cs.extentSize)
  }

  lemma ExactForOne(cs: CryptStat, pageSize: nat, extent: nat)
    requires Usable(cs, pageSize)
    ensures var e, h := cs.extentSize, cs.HeaderBytes();
      Exact(cs, pageSize, extent)
      <==> Times(Quo(LowerExtent(cs, extent), Quo(pageSize, e)), Rem(pageSize, e)) == Rem(h, e)
  {
    hide Times, Quo, Rem;
    AddressInGeneral(cs, extent, pageSize);
    QuoRem(cs.HeaderBytes(), cs.extentSize);
    Distribute(Quo(cs.HeaderBytes(), cs.extentSize), extent, cs.extentSize);
  }

  /** The extent size divides the page size and the header. */
  predicate Divides(cs: CryptStat, pageSize: nat)
    requires cs.extentSize > 0
  {
    Rem(pageSize, cs.extentSize) == 0 && Rem(cs.HeaderBytes(), cs.extentSize) == 0
  }

  /** Page index times page size plus offset is the header plus the extents
      before, for every extent, if and only if the extent size divides both the
      page size and the header. */
  lemma ExactIffDivides(cs: CryptStat, pageSize: nat)
    requires Usable(cs, pageSize)
    ensures (forall extent: nat :: Exact(cs, pageSize, extent)) <==> Divides(cs, pageSize)
  {
    hide Times, Quo, Rem, Exact;
    var e, h := cs.extentSize, cs.HeaderBytes();
    var n, gap := Quo(pageSize, e), Rem(pageSize, e);
    forall extent: nat
      ensures Divides(cs, pageSize) ==> Exact(cs, pageSize, extent)
    {
      ExactForOne(cs, pageSize, extent);
      Unit(Quo(LowerExtent(cs, extent), n));
    }
    if gap == 0 && Rem(h, e) != 0 {
      ExactForOne(cs, pageSize, 0);
      Unit(Quo(LowerExtent(cs, 0), n));
      assert !Exact(cs, pageSize, 0);
    } else if gap != 0 {
      // Two extents at the start of consecutive lower pages cannot both be exact.
      var k := Quo(h, e) + 1;
      Grows(k, n);
      Distribute(k, 1, n);
      Unit(n);
      var a: nat, b: nat := Times(k, n) - Quo(h, e), Times(k + 1, n) - Quo(h, e);
      Determined(LowerExtent(cs, a), n, k, 0);
      Determined(LowerExtent(cs, b), n, k + 1, 0);
      ExactForOne(cs, pageSize, a);
      ExactForOne(cs, pageSize, b);
      Distribute(k, 1, gap);
      Unit(gap);
      assert !Exact(cs, pageSize, a) || !Exact(cs, pageSize, b);
    }
  }

  /* ---- file sizes ---- */

  /** upper_size_to_lower_size */
  function UpperToLower(cs: CryptStat, upper: nat): int
    requires cs.extentSize > 0
  {
    var e := cs.extentSize;
    cs.HeaderBytes() + if upper == 0 then 0 else Times(Quo(upper, e) + if Rem(upper, e) != 0 then 1 else 0, e)
  }

  /** The lower size is the header plus the least whole number of extents that
      holds the upper file. */
  lemma LowerSizeIsLeast(cs: CryptStat, upper: nat)
    requires cs.extentSize > 0
    ensures exists n: nat ::
      && UpperToLower(cs, upper) == cs.headerExtentSize * cs.numHeaderExtents + Times(n, cs.extentSize)
      && upper <= Times(n, cs.extentSize) < upper + cs.extentSize
  {
    var e := cs.extentSize;
    QuoRem(upper, e);
    var q, r := Quo(upper, e), Rem(upper, e);
    Distribute(q, 1, e);
    Unit(e);
    var n := if upper == 0 then 0 else if r == 0 then q else q + 1;
    assert UpperToLower(cs, upper) == cs.HeaderBytes() + Times(n, e);
  }

  /** The lower file ends exactly where its last extent does. */
  lemma LowerSizeEndsLastExtent(cs: CryptStat, upper: nat, pageSize: nat)
    requires Usable(cs, pageSize) && upper > 0 && Divides(cs, pageSize)
    ensures var last := Quo(upper - 1, cs.extentSize);
      Address(ExtentToLower(cs, last, pageSize), pageSize) + cs.extentSize == UpperToLower(cs, upper)
  {
    hide Times, Quo, Rem;
    var e := cs.extentSize;
    ExactIffDivides(cs, pageSize);
    assert Exact(cs, pageSize, Quo(upper - 1, e));
    var q, r := Quo(upper, e), Rem(upper, e);
    QuoRem(upper, e);
    Unit(e);
    Distribute(q, 1, e);
    if r == 0 {
      Distribute(q - 1, 1, e);
      Determined(upper - 1, e, q - 1, e - 1);
    } else {
      Determined(upper - 1, e, q, r - 1);
    }
  }

  /* ---- encrypting a page ---- */

  /** Octets `offset` to `offset + size` of a lower page are written out. */
  datatype WriteOut = WriteOut(page: nat, offset: int, size: int)

  /** One extent, from `source` in the upper page to `offset` in a lower page. */
  datatype Encrypt = Encrypt(page: nat, offset: int, source: int)

  datatype PageState = Unread | Read | Modified | Written

  /** Extent j of the upper page lands where the mapping puts it. */
  function EncryptOf(cs: CryptStat, page: nat, pageSize: nat, j: nat): Encrypt
    requires Usable(cs, pageSize)
  {
    var pos := ExtentToLower(cs, FirstExtent(cs, page, pageSize) + j, pageSize);
    Encrypt(pos.page, pos.offset, Times(j, cs.extentSize))
  }

  function FirstExtent(cs: CryptStat, page: nat, pageSize: nat): nat
    requires Usable(cs, pageSize)
  {
    Grows(page, Quo(pageSize, cs.extentSize));
    Times(page, Quo(pageSize, cs.extentSize))
  }

  /** The lower page on which the upper page starts, and the extents of that
      lower page that lie before it. */
  function StartPage(cs: CryptStat, page: nat, pageSize: nat): nat
    requires Usable(cs, pageSize)
  {
    Quo(LowerExtent(cs, FirstExtent(cs, page, pageSize)), Quo(pageSize, cs.extentSize))
  }

  function Lead(cs: CryptStat, page: nat, pageSize: nat): (r: nat)
    requires Usable(cs, pageSize)
    ensures r < Quo(pageSize, cs.extentSize)
  {
    Rem(LowerExtent(cs, FirstExtent(cs, page, pageSize)), Quo(pageSize, cs.extentSize))
  }

  /** Extent j is on the starting page while there is room, then on the next. */
  lemma ExtentOfPage(cs: CryptStat, page: nat, pageSize: nat, j: nat)
    requires Usable(cs, pageSize) && j < Quo(pageSize, cs.extentSize)
    ensures var n, q, r := Quo(pageSize, cs.extentSize), StartPage(cs, page, pageSize), Lead(cs, page, pageSize);
      ExtentToLower(cs, FirstExtent(cs, page, pageSize) + j, pageSize) ==
        if r + j < n then Position(q, Times(r + j, cs.extentSize))
        else Position(q + 1, Times(r + j - n, cs.extentSize))
  {
    hide Times, Quo, Rem;
    var n, q, r := Quo(pageSize, cs.extentSize), StartPage(cs, page, pageSize), Lead(cs, page, pageSize);
    var lower := LowerExtent(cs, FirstExtent(cs, page, pageSize));
    QuoRem(lower, n);
    if r + j < n {
      Determined(lower + j, n, q, r + j);
    } else {
      Distribute(q, 1, n);
      Unit(n);
      Determined(lower + j, n, q + 1, r + j - n);
    }
  }

  /** What has been written out when the first j extents are done: the starting
      page, as soon as an extent of the next one has come up. */
  function Flushed(cs: CryptStat, page: nat, pageSize: nat, j: nat): seq<WriteOut>
    requires Usable(cs, pageSize)
  {
    var e, r := cs.extentSize, Lead(cs, page, pageSize);
    if r + j <= Quo(pageSize, e) then []
    else [WriteOut(StartPage(cs, page, pageSize), Times(r, e), pageSize - Times(r, e))]
  }

  /** All that is written out for a page. */
  function WritesOf(cs: CryptStat, page: nat, pageSize: nat): seq<WriteOut>
    requires Usable(cs, pageSize)
  {
    var e, n := cs.extentSize, Quo(pageSize, cs.extentSize);
    var q, r := StartPage(cs, page, pageSize), Lead(cs, page, pageSize);
    Flushed(cs, page, pageSize, n) + [WriteOut(if r == 0 then q else q + 1, 0, Times(if r == 0 then n else r, e))]
  }

  /** ecryptfs_encrypt_page, with the pages it writes out, the extents it
      encrypts and whether its closing assertion holds. */
  method EncryptPage(cs: CryptStat, page: nat, pageSize: nat)
    returns (writes: seq<WriteOut>, encrypts: seq<Encrypt>, assertion: bool)
    requires Usable(cs, pageSize)
    ensures writes == WritesOf(cs, page, pageSize)
    ensures |encrypts| == Quo(pageSize, cs.extentSize)
    ensures forall j :: 0 <= j < |encrypts| ==> encrypts[j] == EncryptOf(cs, page, pageSize, j)
    ensures assertion
  {
    hide Times, Quo, Rem, ExtentToLower;
    var e, n := cs.extentSize, Quo(pageSize, cs.extentSize);
    ghost var q, r := StartPage(cs, page, pageSize), Lead(cs, page, pageSize);
    writes, encrypts := [], [];
    var base := FirstExtent(cs, page, pageSize);
    var lower, prior, lowerPage, origOffset, state := Position(0, 0), 0, 0, 0, Unread;
    var j := 0;
    while j < n
      invariant 0 <= j <= n && |encrypts| == j
      invariant forall i :: 0 <= i < j ==> encrypts[i] == EncryptOf(cs, page, pageSize, i)
      invariant writes == Flushed(cs, page, pageSize, j)
      invariant if j == 0 then state == Unread else state == Modified
      invariant j > 0 ==> lower == ExtentToLower(cs, base + (j - 1), pageSize) && prior == lowerPage == lower.page
      invariant j > 0 ==> origOffset == if r + j <= n then Times(r, e) else 0
    {
      ExtentOfPage(cs, page, pageSize, j);
      if j > 0 { ExtentOfPage(cs, page, pageSize, j - 1); }
      Unit(e);
      lower := ExtentToLower(cs, base + j, pageSize);
      if prior != lower.page && state == Modified {
        writes := writes + [WriteOut(lowerPage, origOffset, pageSize - origOffset)];
        state := Written;
      }
      if state == Unread || state == Written {
        lowerPage := lower.page;
        origOffset := lower.offset;
        prior := lower.page;
        state := Read;
      }
      encrypts := encrypts + [Encrypt(lowerPage, lower.offset, Times(j, e))];
      state := Modified;
      j := j + 1;
    }
    ExtentOfPage(cs, page, pageSize, n - 1);
    Unit(e);
    Distribute(n - 1, 1, e);
    Distribute(r as int - 1, 1, e);
    assertion := origOffset == 0;
    writes := writes + [WriteOut(lowerPage, 0, lower.offset + e)];
  }

  function Start(w: WriteOut, pageSize: nat): int { Times(w.page, pageSize) + w.offset }

  /** The writes follow each other without gap or overlap from `from` to `to`. */
  ghost predicate Tiles(writes: seq<WriteOut>, pageSize: nat, from: int, to: int)
    decreases |writes|
  {
    if writes == [] then from == to
    else Start(writes[0], pageSize) == from && Tiles(writes[1..], pageSize, from + writes[0].size, to)
  }

  /** The writes of a page: one or two lower pages that tile exactly the page's
      range of the lower file, behind the header. */
  lemma WritesTilePage(cs: CryptStat, page: nat, pageSize: nat)
    requires Usable(cs, pageSize) && Divides(cs, pageSize)
    ensures var from := cs.HeaderBytes() + Times(page, pageSize);
      |WritesOf(cs, page, pageSize)| <= 2 && Tiles(WritesOf(cs, page, pageSize), pageSize, from, from + pageSize)
  {
    var n, e := Quo(pageSize, cs.extentSize), cs.extentSize;
    var q, r := StartPage(cs, page, pageSize), Lead(cs, page, pageSize);
    var from := cs.HeaderBytes() + Times(page, pageSize);
    ExactIffDivides(cs, pageSize);
    assert Exact(cs, pageSize, FirstExtent(cs, page, pageSize));
    ExtentOfPage(cs, page, pageSize, 0);
    hide Times, Quo, Rem, ExtentToLower;
    QuoRem(pageSize, e);
    Regroup(page, n, e);
    assert Times(q, pageSize) + Times(r, e) == from;
    Unit(e);
    Unit(pageSize);
    Distribute(q, 1, pageSize);
    var last := WriteOut(if r == 0 then q else q + 1, 0, Times(if r == 0 then n else r, e));
    assert [last][1..] == [];
    if r == 0 {
      assert Flushed(cs, page, pageSize, n) + [last] == [last];
      assert Tiles([last], pageSize, from, from + pageSize);
    } else {
      var first := WriteOut(q, Times(r, e), pageSize - Times(r, e));
      assert Flushed(cs, page, pageSize, n) + [last] == [first, last];
      assert [first, last][1..] == [last];
      assert Tiles([last], pageSize, from + first.size, from + pageSize);
    }
  }

  /** Extent j of the page is encrypted to exactly j extents behind the start of
      the page's range. */
  lemma EncryptsInPlace(cs: CryptStat, page: nat, pageSize: nat, j: nat)
    requires Usable(cs, pageSize) && Divides(cs, pageSize) && j < Quo(pageSize, cs.extentSize)
    ensures var x := EncryptOf(cs, page, pageSize, j);
      Times(x.page, pageSize) + x.offset == cs.HeaderBytes() + Times(page, pageSize) + x.source
  {
    ExactIffDivides(cs, pageSize);
    var first := FirstExtent(cs, page, pageSize);
    assert Exact(cs, pageSize, first + j);
    hide Times, Quo, Rem;
    Distribute(first, j, cs.extentSize);
    QuoRem(pageSize, cs.extentSize);
    Regroup(page, Quo(pageSize, cs.extentSize), cs.extentSize);
  }
}
