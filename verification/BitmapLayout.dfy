// Where a region and its bitmap go inside a usable address range, in 32-bit arithmetic.
module BitmapLayout {
  import opened Prelude

  // Rounding a 32-bit address up wraps to 0 in the last page.
  function AlignUp(v: nat): nat {
    var w := (v + PAGE_SIZE - 1) % WORD;
    w - w % PAGE_SIZE
  }

  function AlignDown(v: nat): nat {
    v - v % PAGE_SIZE
  }

  lemma AlignUpExact(v: nat)
    requires v < WORD
    ensures v <= 0xFFFF_F000 ==> v <= AlignUp(v) < v + PAGE_SIZE && AlignUp(v) % PAGE_SIZE == 0
    ensures v > 0xFFFF_F000 ==> AlignUp(v) == 0
    ensures v <= 0xFFFF_E000 ==> AlignUp(v) <= 0xFFFF_E000
  {
  }

  predicate Overlap(aStart: nat, aEnd: nat, bStart: nat, bEnd: nat) {
    (if aEnd < bEnd then aEnd else bEnd) > (if aStart > bStart then aStart else bStart)
  }

  datatype Layout = Layout(start: nat, end: nat, pages: nat, storagePages: nat)

  // The region lies inside the usable range.
  predicate Inside(l: Layout, usableStart: nat, usableEnd: nat) {
    usableStart <= l.start && l.start + l.pages * PAGE_SIZE == l.end && l.end <= usableEnd
  }

  datatype Attempt = Fail | Retry(start: nat) | Done(layout: Layout)

  function PastKernel(start: nat, end: nat, kernelStart: nat, kernelEnd: nat): nat {
    if Overlap(start, end, kernelStart, kernelEnd) && start < AlignUp(kernelEnd) then AlignUp(kernelEnd) else start
  }

  // The pass over the page range [s, e), in 32-bit arithmetic.
  function TryFrom(s: nat, e: nat, mb2Start: nat, mb2End: nat): Attempt {
    if e <= (s + PAGE_SIZE) % WORD then Fail else
      var pages := (e - s) % WORD / PAGE_SIZE;
      var storage := AlignUp((pages + 7) / 8);
      if pages < 8 || storage / PAGE_SIZE >= pages then Fail
      else if mb2End > mb2Start && Overlap(s, (s + storage) % WORD, mb2Start, mb2End) then Retry(AlignUp(mb2End))
      else Done(Layout(s, e, pages, storage / PAGE_SIZE))
  }

  // One pass of the placement loop over the candidate range [start, end).
  function TryLayout(start: nat, end: nat, kernelStart: nat, kernelEnd: nat, mb2Start: nat, mb2End: nat): Attempt {
    TryFrom(AlignUp(PastKernel(start, end, kernelStart, kernelEnd)), AlignDown(end), mb2Start, mb2End)
  }

  // What placement promises of a range whose start does not round past the last page.
  ghost predicate Placed(l: Layout, kernelStart: nat, kernelEnd: nat, mb2Start: nat, mb2End: nat) {
    && l.start % PAGE_SIZE == 0 && l.end < WORD && l.start + l.pages * PAGE_SIZE == l.end
    && 0 < l.storagePages < l.pages && (l.pages + 7) / 8 <= l.storagePages * PAGE_SIZE
    && !Overlap(l.start, l.end, kernelStart, kernelEnd)
    && !Overlap(l.start, l.start + l.storagePages * PAGE_SIZE, mb2Start, mb2End)
  }

  // Sizes computed for a page-aligned candidate range do not wrap.
  lemma Sizes(s: nat, e: nat)
    requires s % PAGE_SIZE == 0 && e % PAGE_SIZE == 0 && s + PAGE_SIZE < e < WORD
    ensures var pages := (e - s) % WORD / PAGE_SIZE;
            var storage := AlignUp((pages + 7) / 8);
            && s + pages * PAGE_SIZE == e
            && storage == storage / PAGE_SIZE * PAGE_SIZE && 0 < (pages + 7) / 8 <= storage
            && (storage / PAGE_SIZE < pages ==> (s + storage) % WORD == s + storage)
  {
    assert (e - s) % WORD == e - s && (e - s) % PAGE_SIZE == 0;
    var pages := (e - s) / PAGE_SIZE;
    WholeQuotient(e - s);
    AlignUpExact((pages + 7) / 8);
    WholeQuotient(AlignUp((pages + 7) / 8));
  }

  lemma WholeQuotient(v: nat)
    requires v % PAGE_SIZE == 0
    ensures v == v / PAGE_SIZE * PAGE_SIZE
  {
  }

  // The first test is exact while the start does not reach the last page.
  lemma PastPage(s: nat, e: nat)
    requires s <= 0xFFFF_E000
    ensures (s + PAGE_SIZE) % WORD == s + PAGE_SIZE
  {
  }

  // A range starting in the last two pages rounds up past itself: to the last page, from
  // where the size wraps, or to address 0.
  lemma TryWraps(start: nat, end: nat, kernelStart: nat, kernelEnd: nat, mb2Start: nat, mb2End: nat)
    requires 0xFFFF_E000 < start < end < WORD && kernelEnd <= 0xFFFF_E000
    ensures TryLayout(start, end, kernelStart, kernelEnd, mb2Start, mb2End) ==
      if start <= 0xFFFF_F000 then
        if end < 0xFFFF_F000 then Done(Layout(0xFFFF_F000, 0xFFFF_E000, 0xF_FFFF, 32)) else Fail
      else if Overlap(0, 0x2_0000, mb2Start, mb2End) then Retry(AlignUp(mb2End))
      else Done(Layout(0, 0xFFFF_F000, 0xF_FFFF, 32))
  {
    AlignUpExact(start);
    assert PastKernel(start, end, kernelStart, kernelEnd) == start;
    assert AlignUp((0xF_FFFF + 7) / 8) == 0x2_0000;
    var s, e := AlignUp(start), AlignDown(end);
    if start <= 0xFFFF_F000 {
      assert s == 0xFFFF_F000 && e == if end < 0xFFFF_F000 then 0xFFFF_E000 else 0xFFFF_F000;
    } else {
      assert s == 0 && e == 0xFFFF_F000;
    }
  }

  // Fifteen bytes near the top are given a layout of almost the whole address space.
  lemma WrapExample()
    ensures TryLayout(0xFFFF_E001, 0xFFFF_E010, 0, 0, 0, 0) == Done(Layout(0xFFFF_F000, 0xFFFF_E000, 0xF_FFFF, 32))
    ensures !Inside(Layout(0xFFFF_F000, 0xFFFF_E000, 0xF_FFFF, 32), 0xFFFF_E001, 0xFFFF_E010)
  {
    assert PastKernel(0xFFFF_E001, 0xFFFF_E010, 0, 0) == 0xFFFF_E001;
    assert AlignUp(0xFFFF_E001) == 0xFFFF_F000 && AlignDown(0xFFFF_E010) == 0xFFFF_E000;
    assert AlignUp((0xF_FFFF + 7) / 8) == 0x2_0000;
  }

  // ---- when a layout is found, and which ----

  // A byte of both ranges.
  predicate Within(x: nat, start: nat, end: nat) {
    start <= x < end
  }

  lemma OverlapMeans(aStart: nat, aEnd: nat, bStart: nat, bEnd: nat)
    ensures Overlap(aStart, aEnd, bStart, bEnd) <==> exists x: nat :: Within(x, aStart, aEnd) && Within(x, bStart, bEnd)
  {
    if Overlap(aStart, aEnd, bStart, bEnd) {
      var x := if aStart > bStart then aStart else bStart;
      assert Within(x, aStart, aEnd) && Within(x, bStart, bEnd);
    }
  }

  // A bit for each page, in whole pages.
  ghost function BitmapBytes(pages: nat): nat {
    4096 * ((pages + 32767) / 32768)
  }

  // Where the bitmap of a region from f to `end` ends.
  ghost function BitmapEnd(f: nat, end: nat): nat {
    if f <= end then f + BitmapBytes((end - f) / 4096) else f
  }

  // A page at which a region of the usable range can start: from it there are 8 whole pages
  // or more, the kernel image is not met, and the bitmap misses the boot information.
  ghost predicate Suits(f: nat,
                        usableStart: nat, usableEnd: nat, kernelStart: nat, kernelEnd: nat, mb2Start: nat, mb2End: nat) {
    && usableStart <= f && f % 4096 == 0 && f + 8 * 4096 <= AlignDown(usableEnd)
    && !Overlap(f, usableEnd, kernelStart, kernelEnd)
    && !Overlap(f, BitmapEnd(f, AlignDown(usableEnd)), mb2Start, mb2End)
  }

  ghost predicate AnySuits(usableStart: nat, usableEnd: nat, kernelStart: nat, kernelEnd: nat, mb2Start: nat, mb2End: nat) {
    exists f :: Suits(f, usableStart, usableEnd, kernelStart, kernelEnd, mb2Start, mb2End)
  }

  // All whole pages from s to e, and a bit for each.
  ghost predicate Fits(l: Layout, s: nat, e: nat) {
    l.start == s && l.end == e && s + l.pages * 4096 == e && l.storagePages * 4096 == BitmapBytes(l.pages)
  }

  // The region starts at the first such page and takes the whole pages up to the end.
  ghost predicate Chosen(l: Layout,
                         usableStart: nat, usableEnd: nat, kernelStart: nat, kernelEnd: nat, mb2Start: nat, mb2End: nat) {
    && Suits(l.start, usableStart, usableEnd, kernelStart, kernelEnd, mb2Start, mb2End)
    && (forall f | Suits(f, usableStart, usableEnd, kernelStart, kernelEnd, mb2Start, mb2End) :: l.start <= f)
    && Fits(l, l.start, AlignDown(usableEnd))
  }

  lemma StorageBytes(pages: nat)
    requires pages <= 0xF_FFFF
    ensures AlignUp((pages + 7) / 8) == BitmapBytes(pages) && BitmapBytes(pages) / PAGE_SIZE == (pages + 32767) / 32768
    ensures pages >= 8 ==> 0 < BitmapBytes(pages) < pages * PAGE_SIZE
  {
    AlignUpExact((pages + 7) / 8);
  }

  // A later start never ends its bitmap earlier.
  lemma BitmapEndGrows(f: nat, g: nat, end: nat)
    requires f % PAGE_SIZE == 0 && g % PAGE_SIZE == 0 && end % PAGE_SIZE == 0 && f <= g <= end
    ensures BitmapEnd(f, end) <= BitmapEnd(g, end)
  {
    var p, q := (end - f) / 4096, (end - g) / 4096;
    assert end - f == p * 4096 && end - g == q * 4096;
    FewerBits(q, p - q);
  }

  lemma FewerBits(q: nat, d: nat)
    ensures (q + d + 32767) / 32768 <= (q + 32767) / 32768 + d
  {
  }

  lemma TryFromExact(s: nat, e: nat, mb2Start: nat, mb2End: nat)
    requires s % PAGE_SIZE == 0 && e % PAGE_SIZE == 0 && s <= 0xFFFF_E000 && e < WORD
    ensures match TryFrom(s, e, mb2Start, mb2End)
            case Fail => s + 8 * PAGE_SIZE > e
            case Retry(t) => s + 8 * PAGE_SIZE <= e && Overlap(s, BitmapEnd(s, e), mb2Start, mb2End) && t == AlignUp(mb2End)
            case Done(l) => s + 8 * PAGE_SIZE <= e && !Overlap(s, BitmapEnd(s, e), mb2Start, mb2End) && Fits(l, s, e)
  {
    PastPage(s, e);
    if s + PAGE_SIZE < e {
      Sizes(s, e);
      StorageBytes((e - s) / PAGE_SIZE);
    }
  }

  // Rounding up stops at any whole page at or above.
  lemma RoundsTo(v: nat, f: nat)
    requires v <= f && v <= 0xFFFF_E000 && f % PAGE_SIZE == 0
    ensures AlignUp(v) <= f
  {
    AlignUpExact(v);
  }

  // When the bitmap from s meets the boot information, so does the one from any later page
  // before that information's end.
  lemma PastBootInfo(s: nat, f: nat, e: nat, mb2Start: nat, mb2End: nat)
    requires s % PAGE_SIZE == 0 && f % PAGE_SIZE == 0 && e % PAGE_SIZE == 0 && s <= f < e && mb2End <= 0xFFFF_E000
    requires Overlap(s, BitmapEnd(s, e), mb2Start, mb2End) && !Overlap(f, BitmapEnd(f, e), mb2Start, mb2End)
    ensures AlignUp(mb2End) <= f
  {
    BitmapEndGrows(s, f, e);
    BitmapNotEmpty(f, e);
    RoundsTo(mb2End, f);
  }

  lemma BitmapNotEmpty(f: nat, e: nat)
    requires f % PAGE_SIZE == 0 && e % PAGE_SIZE == 0 && f < e
    ensures BitmapEnd(f, e) > f
  {
  }

  // The first page at which the kernel is not met.
  lemma PastExact(start: nat, end: nat, kernelStart: nat, kernelEnd: nat)
    requires start <= 0xFFFF_E000 && kernelEnd <= 0xFFFF_E000
    ensures var s := AlignUp(PastKernel(start, end, kernelStart, kernelEnd));
            start <= s <= 0xFFFF_E000 && s % PAGE_SIZE == 0 && !Overlap(s, end, kernelStart, kernelEnd)
  {
    AlignUpExact(start);
    AlignUpExact(kernelEnd);
    AlignUpExact(PastKernel(start, end, kernelStart, kernelEnd));
  }

  lemma PastLeast(start: nat, end: nat, kernelStart: nat, kernelEnd: nat, f: nat)
    requires start <= 0xFFFF_E000 && kernelEnd <= 0xFFFF_E000
    requires start <= f < end && f % PAGE_SIZE == 0 && !Overlap(f, end, kernelStart, kernelEnd)
    ensures AlignUp(PastKernel(start, end, kernelStart, kernelEnd)) <= f
  {
    var v := PastKernel(start, end, kernelStart, kernelEnd);
    AlignUpExact(kernelEnd);
    if Overlap(start, end, kernelStart, kernelEnd) {
      RoundsTo(kernelEnd, f);
    }
    assert v <= f;
    AlignUpExact(v);
    RoundsTo(v, f);
  }

  // The first pass settles the layout or moves the start past the boot information; no page
  // before that suits.
  lemma FirstTry(usableStart: nat, usableEnd: nat, kernelStart: nat, kernelEnd: nat, mb2Start: nat, mb2End: nat)
    requires usableStart <= 0xFFFF_E000 && usableEnd < WORD && kernelEnd <= 0xFFFF_E000 && mb2End <= 0xFFFF_E000
    ensures match TryLayout(usableStart, usableEnd, kernelStart, kernelEnd, mb2Start, mb2End)
            case Fail => !AnySuits(usableStart, usableEnd, kernelStart, kernelEnd, mb2Start, mb2End)
            case Done(l) => Chosen(l, usableStart, usableEnd, kernelStart, kernelEnd, mb2Start, mb2End)
            case Retry(t) => Moved(t, usableStart, usableEnd, kernelStart, kernelEnd, mb2Start, mb2End)
  {
    var s, e := AlignUp(PastKernel(usableStart, usableEnd, kernelStart, kernelEnd)), AlignDown(usableEnd);
    PastExact(usableStart, usableEnd, kernelStart, kernelEnd);
    WholeEnd(usableEnd);
    TryFromExact(s, e, mb2Start, mb2End);
    AlignUpExact(mb2End);
    forall f | Suits(f, usableStart, usableEnd, kernelStart, kernelEnd, mb2Start, mb2End)
      ensures s <= f < e && (Overlap(s, BitmapEnd(s, e), mb2Start, mb2End) ==> AlignUp(mb2End) <= f)
    {
      PastLeast(usableStart, usableEnd, kernelStart, kernelEnd, f);
      if Overlap(s, BitmapEnd(s, e), mb2Start, mb2End) {
        PastBootInfo(s, f, e, mb2Start, mb2End);
      }
    }
  }

  lemma WholeEnd(end: nat)
    ensures AlignDown(end) % PAGE_SIZE == 0 && AlignDown(end) <= end && AlignDown(AlignDown(end)) == AlignDown(end)
  {
  }

  // Past the boot information and clear of the kernel, and no suiting page lies before.
  ghost predicate Moved(t: nat,
                        usableStart: nat, usableEnd: nat, kernelStart: nat, kernelEnd: nat, mb2Start: nat, mb2End: nat) {
    && t % PAGE_SIZE == 0 && usableStart <= t <= 0xFFFF_E000 && mb2End <= t && !Overlap(t, usableEnd, kernelStart, kernelEnd)
    && forall f | Suits(f, usableStart, usableEnd, kernelStart, kernelEnd, mb2Start, mb2End) :: t <= f
  }

  // So the second pass is the last one.
  lemma SecondTry(t: nat, usableStart: nat, usableEnd: nat, kernelStart: nat, kernelEnd: nat, mb2Start: nat, mb2End: nat)
    requires Moved(t, usableStart, usableEnd, kernelStart, kernelEnd, mb2Start, mb2End) && usableEnd < WORD
    ensures match TryLayout(t, AlignDown(usableEnd), kernelStart, kernelEnd, mb2Start, mb2End)
            case Fail => !AnySuits(usableStart, usableEnd, kernelStart, kernelEnd, mb2Start, mb2End)
            case Done(l) => Chosen(l, usableStart, usableEnd, kernelStart, kernelEnd, mb2Start, mb2End)
            case Retry(_) => false
  {
    var e := AlignDown(usableEnd);
    WholeEnd(usableEnd);
    assert PastKernel(t, e, kernelStart, kernelEnd) == t;
    AlignUpExact(t);
    assert AlignUp(t) == t;
    TryFromExact(t, e, mb2Start, mb2End);
  }

  // The region chosen lies inside the usable range, its bitmap has a bit for each of its pages
  // and takes fewer pages than that, and neither reserved range is met.
  lemma ChosenPlaced(l: Layout,
                     usableStart: nat, usableEnd: nat, kernelStart: nat, kernelEnd: nat, mb2Start: nat, mb2End: nat)
    requires Chosen(l, usableStart, usableEnd, kernelStart, kernelEnd, mb2Start, mb2End) && usableEnd < WORD
    ensures Inside(l, usableStart, usableEnd) && Placed(l, kernelStart, kernelEnd, mb2Start, mb2End)
  {
    WholeEnd(usableEnd);
    WholeQuotient(l.end - l.start);
    StorageBytes(l.pages);
  }

  // A range found near the top of the address space although it is not inside the usable one.
  ghost predicate WrapFinds(usableStart: nat, usableEnd: nat, kernelStart: nat, kernelEnd: nat, mb2Start: nat, mb2End: nat) {
    && usableStart < usableEnd
    && if usableStart <= 0xFFFF_F000 then usableEnd < 0xFFFF_F000 else
         || !Overlap(0, 0x2_0000, mb2Start, mb2End)
         || AnySuits(AlignUp(mb2End), 0xFFFF_F000, kernelStart, kernelEnd, mb2Start, mb2End)
  }

  // What the loop answers.
  ghost predicate Answer(ok: bool, l: Layout,
                         usableStart: nat, usableEnd: nat, kernelStart: nat, kernelEnd: nat, mb2Start: nat, mb2End: nat) {
    && (usableStart <= 0xFFFF_E000 ==> (ok <==> AnySuits(usableStart, usableEnd, kernelStart, kernelEnd, mb2Start, mb2End)))
    && (ok && usableStart <= 0xFFFF_E000 ==> Chosen(l, usableStart, usableEnd, kernelStart, kernelEnd, mb2Start, mb2End))
    && (usableStart > 0xFFFF_E000 ==> (ok <==> WrapFinds(usableStart, usableEnd, kernelStart, kernelEnd, mb2Start, mb2End)))
    && (ok ==> (Inside(l, usableStart, usableEnd) <==> usableStart <= 0xFFFF_E000))
  }

  // The range the search is for, once its start is below the last two pages.
  ghost predicate Sought(start: nat, end: nat, usableStart: nat, usableEnd: nat, mb2Start: nat, mb2End: nat) {
    && start <= 0xFFFF_E000 && end < WORD
    && if usableStart <= 0xFFFF_E000 then start == usableStart && end == usableEnd
       else usableStart > 0xFFFF_F000 && start == AlignUp(mb2End) && end == 0xFFFF_F000 && Overlap(0, 0x2_0000, mb2Start, mb2End)
  }

  // The passes: one for a start in the last two pages, one from the start sought, one past
  // the boot information.
  ghost predicate Pass(n: nat, start: nat, end: nat, from: nat, top: nat,
                       usableStart: nat, usableEnd: nat, kernelStart: nat, kernelEnd: nat, mb2Start: nat, mb2End: nat) {
    if n == 0 then usableStart > 0xFFFF_E000 && start == usableStart && end == usableEnd
    else
      && Sought(from, top, usableStart, usableEnd, mb2Start, mb2End)
      && if n == 1 then start == from && end == top
         else n == 2 && Moved(start, from, top, kernelStart, kernelEnd, mb2Start, mb2End) && end == AlignDown(top)
  }

  // The search answers for the range sought.
  lemma SoughtAnswers(l: Layout, from: nat, top: nat,
                      usableStart: nat, usableEnd: nat, kernelStart: nat, kernelEnd: nat, mb2Start: nat, mb2End: nat)
    requires Sought(from, top, usableStart, usableEnd, mb2Start, mb2End) && usableStart < usableEnd
    ensures !AnySuits(from, top, kernelStart, kernelEnd, mb2Start, mb2End) ==>
      Answer(false, Layout(0, 0, 0, 0), usableStart, usableEnd, kernelStart, kernelEnd, mb2Start, mb2End)
    ensures Chosen(l, from, top, kernelStart, kernelEnd, mb2Start, mb2End) ==>
      Answer(true, l, usableStart, usableEnd, kernelStart, kernelEnd, mb2Start, mb2End)
  {
    if Chosen(l, from, top, kernelStart, kernelEnd, mb2Start, mb2End) {
      ChosenPlaced(l, from, top, kernelStart, kernelEnd, mb2Start, mb2End);
      assert AnySuits(from, top, kernelStart, kernelEnd, mb2Start, mb2End);
    }
  }

  lemma WrapStep(usableStart: nat, usableEnd: nat, kernelStart: nat, kernelEnd: nat, mb2Start: nat, mb2End: nat)
    requires 0xFFFF_E000 < usableStart < usableEnd < WORD && kernelEnd <= 0xFFFF_E000 && mb2End <= 0xFFFF_E000
    ensures match TryLayout(usableStart, usableEnd, kernelStart, kernelEnd, mb2Start, mb2End)
            case Fail => Answer(false, Layout(0, 0, 0, 0), usableStart, usableEnd, kernelStart, kernelEnd, mb2Start, mb2End)
            case Done(l) => Answer(true, l, usableStart, usableEnd, kernelStart, kernelEnd, mb2Start, mb2End)
            case Retry(t) => Pass(1, t, AlignDown(usableEnd), t, AlignDown(usableEnd),
                  usableStart, usableEnd, kernelStart, kernelEnd, mb2Start, mb2End)
  {
    AlignUpExact(mb2End);
    assert usableStart > 0xFFFF_F000 ==> AlignDown(usableEnd) == 0xFFFF_F000;
    TryWraps(usableStart, usableEnd, kernelStart, kernelEnd, mb2Start, mb2End);
  }

  lemma PassStep(n: nat, start: nat, end: nat, from: nat, top: nat,
                 usableStart: nat, usableEnd: nat, kernelStart: nat, kernelEnd: nat, mb2Start: nat, mb2End: nat)
    requires Pass(n, start, end, from, top, usableStart, usableEnd, kernelStart, kernelEnd, mb2Start, mb2End)
    requires usableStart < usableEnd < WORD && kernelEnd <= 0xFFFF_E000 && mb2End <= 0xFFFF_E000
    ensures match TryLayout(start, end, kernelStart, kernelEnd, mb2Start, mb2End)
            case Fail => Answer(false, Layout(0, 0, 0, 0), usableStart, usableEnd, kernelStart, kernelEnd, mb2Start, mb2End)
            case Done(l) => Answer(true, l, usableStart, usableEnd, kernelStart, kernelEnd, mb2Start, mb2End)
            case Retry(t) =>
              && n < 2
              && var from', top' := if n == 0 then t else from, if n == 0 then AlignDown(end) else top;
                 Pass(n + 1, t, AlignDown(end), from', top',
                  usableStart, usableEnd, kernelStart, kernelEnd, mb2Start, mb2End)
  {
    if n == 0 {
      WrapStep(usableStart, usableEnd, kernelStart, kernelEnd, mb2Start, mb2End);
    } else {
      if n == 1 {
        FirstTry(start, end, kernelStart, kernelEnd, mb2Start, mb2End);
      } else {
        SecondTry(start, from, top, kernelStart, kernelEnd, mb2Start, mb2End);
      }
      var attempt := TryLayout(start, end, kernelStart, kernelEnd, mb2Start, mb2End);
      var l := if attempt.Done? then attempt.layout else Layout(0, 0, 0, 0);
      SoughtAnswers(l, from, top, usableStart, usableEnd, kernelStart, kernelEnd, mb2Start, mb2End);
    }
  }

  // For a usable range that starts below the last two pages a layout is found exactly when some
  // page suits, and starts at the first one. For any other range what is found is not inside it.
  method ComputeLayout(usableStart: nat, usableEnd: nat, kernelStart: nat, kernelEnd: nat, mb2Start: nat, mb2End: nat)
    returns (ok: bool, l: Layout)
    requires usableStart < WORD && usableEnd < WORD
    requires kernelEnd <= 0xFFFF_E000 && mb2End <= 0xFFFF_E000
    ensures usableStart <= 0xFFFF_E000 ==>
      (ok <==> AnySuits(usableStart, usableEnd, kernelStart, kernelEnd, mb2Start, mb2End))
    ensures ok && usableStart <= 0xFFFF_E000 ==>
      Chosen(l, usableStart, usableEnd, kernelStart, kernelEnd, mb2Start, mb2End)
    ensures usableStart > 0xFFFF_E000 ==>
      (ok <==> WrapFinds(usableStart, usableEnd, kernelStart, kernelEnd, mb2Start, mb2End))
    ensures ok ==> (Inside(l, usableStart, usableEnd) <==> usableStart <= 0xFFFF_E000)
  {
    ok, l := false, Layout(0, 0, 0, 0);
    if usableEnd <= usableStart {
      return;
    }
    var start, end, attempt := usableStart, usableEnd, 0;
    ghost var n: nat := if usableStart > 0xFFFF_E000 then 0 else 1;
    ghost var from, top := usableStart, usableEnd;
    while attempt < 4
      invariant attempt <= n && Pass(n, start, end, from, top,
                  usableStart, usableEnd, kernelStart, kernelEnd, mb2Start, mb2End)
    {
      PassStep(n, start, end, from, top, usableStart, usableEnd, kernelStart, kernelEnd, mb2Start, mb2End);
      match TryLayout(start, end, kernelStart, kernelEnd, mb2Start, mb2End) {
        case Fail => return;
        case Done(d) => ok, l := true, d; return;
        case Retry(t) =>
          if n == 0 {
            from, top := t, AlignDown(end);
          }
          start, end, n := t, AlignDown(end), n + 1;
      }
      attempt := attempt + 1;
    }
  }
}
