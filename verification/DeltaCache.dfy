/** The delta generator and its cache of last tile versions
    (`DeltaGenerator::createDelta`, `compressOrDelta`, `rebalanceDeltasT`). */
module DeltaCache {
  import opened Options
  import opened Pixels
  import opened RowCodec
  import opened TileDelta
  import opened MakeDelta
  import opened Keyframe
  import RowInit

  datatype TileLocation =
    TileLocation(left: int, top: int, size: int, part: int, canonicalViewId: int, viewMode: int)

  const KEYFRAME_TAG: byte := 90  // 'Z'
  const DELTA_TAG: byte := 68     // 'D'

  // ----- Specification -----

  /** A delta that turns the old image into the new one, in RGBA order; empty
      exactly when they are equal. */
  ghost predicate IsDelta(prev: Image, cur: Image, w: nat, mode: TileMode, delta: seq<byte>) {
    && |prev| == |cur|
    && exists ops: seq<Op> ::
         && Rebuilt(ImageToRgba(prev, mode), ImageToRgba(cur, mode), ops, |cur|, w)
         && delta == (if ops == [] then [] else Serialize(ops) + [TERMINATE])
         && (ops == [] <==> prev == cur)
  }

  /** The cache: entries with the images that they hold. */
  datatype Cache = Cache(entries: map<TileLocation, DeltaData>, images: map<TileLocation, Image>)

  ghost predicate Consistent(c: Cache) {
    && c.entries.Keys == c.images.Keys
    && forall l :: l in c.entries ==>
         && Holds(c.entries[l], c.images[l])
         && c.entries[l].width <= 256 && c.entries[l].height <= 256
  }

  /** One tile: the cache now holds it, and the message is a delta against the
      cached version if there is one of that size and no keyframe is forced. */
  ghost predicate Encoded(c: Cache, loc: TileLocation, img: Image, w: nat, wid: nat, force: bool, mode: TileMode,
                          c': Cache, msg: seq<byte>) {
    && c'.entries == c.entries[loc := DeltaData(wid, w, |img|, EncodeRows(img))]
    && c'.images == c.images[loc := img]
    && if loc in c.entries && loc in c.images && !force
          && c.entries[loc].width == w && c.entries[loc].height == |img|
       then |msg| > 0 && msg[0] == DELTA_TAG && IsDelta(c.images[loc], img, w, mode, msg[1..])
       else msg == [KEYFRAME_TAG] + PackImage(img, mode)
  }

  /** What eviction leaves: three quarters of the limit, or nothing when all are
      dropped; nothing newer goes while something older stays. */
  ghost predicate Rebalanced(c: Cache, c': Cache, maxEntries: nat, dropAll: bool) {
    if |c.entries| > maxEntries || dropAll then
      && c'.entries.Keys <= c.entries.Keys && c'.images.Keys == c'.entries.Keys
      && (forall l :: l in c'.entries ==> c'.entries[l] == c.entries[l])
      && (forall l :: l in c'.entries && l in c.images ==> c'.images[l] == c.images[l])
      && |c'.entries| == (if dropAll then 0 else maxEntries * 3 / 4)
      && (forall e, k :: e in c.entries && e !in c'.entries && k in c'.entries ==>
            c.entries[e].wid <= c.entries[k].wid)
    else c' == c
  }

  lemma EncodedConsistent(c: Cache, loc: TileLocation, img: Image, w: nat, wid: nat, force: bool, mode: TileMode,
                          c': Cache, msg: seq<byte>)
    requires Consistent(c) && Encoded(c, loc, img, w, wid, force, mode, c', msg)
    requires Sized(img, w, |img|) && w <= 256 && |img| <= 256
    ensures Consistent(c')
  {
    hide EncodeRows, IsDelta;
  }

  lemma RebalancedConsistent(c: Cache, c': Cache, maxEntries: nat, dropAll: bool)
    requires Consistent(c) && Rebalanced(c, c', maxEntries, dropAll)
    ensures Consistent(c')
  {
    hide Holds;
  }

  // ----- The pixmap -----

  /** A window of w by h pixels at (x0, y0) lies in a pixmap of bw by bh. */
  predicate InPixmap(pixmap: seq<Pixel>, bw: nat, bh: nat, x0: nat, y0: nat, w: nat, h: nat) {
    |pixmap| == bh * bw && x0 + w <= bw && y0 + h <= bh
  }

  lemma {:induction false} RowInPixmap(bw: nat, bh: nat, y: nat)
    requires y < bh
    ensures y * bw + bw <= bh * bw
    decreases bh
  {
    assert bh * bw == (bh - 1) * bw + bw;
    if y < bh - 1 {
      RowInPixmap(bw, bh - 1, y);
    }
  }

  /** Row y of the window, from pixel (y0 + y) * bw + x0 on. */
  function WindowRow(pixmap: seq<Pixel>, bw: nat, bh: nat, x0: nat, y0: nat, w: nat, h: nat, y: nat): (r: seq<Pixel>)
    requires InPixmap(pixmap, bw, bh, x0, y0, w, h) && y < h
    ensures |r| == w
  {
    RowInPixmap(bw, bh, y0 + y);
    pixmap[(y0 + y) * bw + x0..(y0 + y) * bw + x0 + w]
  }

  function Window(pixmap: seq<Pixel>, bw: nat, bh: nat, x0: nat, y0: nat, w: nat, h: nat): (img: Image)
    requires InPixmap(pixmap, bw, bh, x0, y0, w, h)
    ensures Sized(img, w, h)
  {
    seq(h, y requires 0 <= y < h => WindowRow(pixmap, bw, bh, x0, y0, w, h, y))
  }

  /** Pixel (x, y) of the window is pixel (x0 + x, y0 + y) of the pixmap. */
  lemma WindowPixel(pixmap: seq<Pixel>, bw: nat, bh: nat, x0: nat, y0: nat, w: nat, h: nat, x: nat, y: nat)
    requires InPixmap(pixmap, bw, bh, x0, y0, w, h) && x < w && y < h
    ensures (y0 + y) * bw + x0 + x < |pixmap|
    ensures Window(pixmap, bw, bh, x0, y0, w, h)[y][x] == pixmap[(y0 + y) * bw + x0 + x]
  {
    RowInPixmap(bw, bh, y0 + y);
    assert Window(pixmap, bw, bh, x0, y0, w, h)[y] == WindowRow(pixmap, bw, bh, x0, y0, w, h, y);
  }

  method NewDeltaData(wid: nat, pixmap: seq<Pixel>, startX: nat, startY: nat, width: nat, height: nat,
                      bufferWidth: nat, bufferHeight: nat, lut: seq<seq<nat>>) returns (d: DeltaData)
    requires RowInit.IsGatherLut(lut)
    requires InPixmap(pixmap, bufferWidth, bufferHeight, startX, startY, width, height)
    ensures d == DeltaData(wid, width, height,
                           EncodeRows(Window(pixmap, bufferWidth, bufferHeight, startX, startY, width, height)))
  {
    hide Encode;
    var rows := [];
    ghost var img := Window(pixmap, bufferWidth, bufferHeight, startX, startY, width, height);
    for y := 0 to height
      invariant rows == EncodeRows(img)[..y]
    {
      RowInPixmap(bufferWidth, bufferHeight, startY + y);
      var position := (startY + y) * bufferWidth + startX;
      var row := RowInit.InitRow(pixmap[position..position + width], lut);
      assert img[y] == WindowRow(pixmap, bufferWidth, bufferHeight, startX, startY, width, height, y);
      rows := rows + [row];
    }
    d := DeltaData(wid, width, height, rows);
  }

  // ----- The generator -----

  class DeltaGenerator {
    const mode: TileMode
    const lut: seq<seq<nat>>  // the gather table of the AVX2 encoder
    var deltaEntries: map<TileLocation, DeltaData>
    var maxEntries: nat
    ghost var images: map<TileLocation, Image>

    ghost function Contents(): Cache
      reads this
    {
      Cache(deltaEntries, images)
    }

    ghost predicate Valid()
      reads this
    {
      Consistent(Contents()) && RowInit.IsGatherLut(lut)
    }

    constructor (mode: TileMode, lut: seq<seq<nat>>)
      requires RowInit.IsGatherLut(lut)
      ensures Valid() && Contents() == Cache(map[], map[]) && maxEntries == 0 && this.mode == mode
    {
      this.mode, this.lut := mode, lut;
      deltaEntries, maxEntries, images := map[], 0, map[];
    }

    /** Null rleData stands for a size that the generator refuses. */
    method CreateDelta(pixmap: seq<Pixel>, startX: nat, startY: nat, width: nat, height: nat,
                       bufferWidth: nat, bufferHeight: nat, loc: TileLocation, wid: nat, forceKeyframe: bool)
      returns (delta: Option<seq<byte>>, rleData: Option<DeltaData>)
      requires Valid()
      requires InPixmap(pixmap, bufferWidth, bufferHeight, startX, startY, width, height)
      modifies this
      ensures Valid() && maxEntries == old(maxEntries)
      ensures rleData.Some? <==> width % 2 == 0 && width <= 256 && height <= 256
      ensures rleData.None? ==> delta.None? && Contents() == old(Contents())
      ensures rleData.Some? ==>
        var img := Window(pixmap, bufferWidth, bufferHeight, startX, startY, width, height);
        && rleData.value == DeltaData(wid, width, height, EncodeRows(img))
        && deltaEntries == old(deltaEntries)[loc := rleData.value]
        && images == old(images)[loc := img]
        && (delta.Some? <==>
            loc in old(deltaEntries) && !forceKeyframe
            && old(deltaEntries)[loc].width == width && old(deltaEntries)[loc].height == height)
        && (delta.Some? ==> IsDelta(old(images)[loc], img, width, mode, delta.value))
    {
      hide EncodeRows, Window, InPixmap, Rebuilt, Serialize;
      delta, rleData := None, None;
      if width % 2 != 0 {
        return;
      }
      if width > 256 || height > 256 {
        return;
      }
      var update := NewDeltaData(wid, pixmap, startX, startY, width, height, bufferWidth, bufferHeight, lut);
      ghost var img := Window(pixmap, bufferWidth, bufferHeight, startX, startY, width, height);
      if loc in deltaEntries {
        var cacheEntry := deltaEntries[loc];
        if !forceKeyframe {
          ghost var ops;
          delta, ops := MakeDelta.MakeDelta(images[loc], img, cacheEntry, update, mode);
        }
      }
      deltaEntries := deltaEntries[loc := update];
      images := images[loc := img];
      rleData := Some(update);
    }

    /** Encode a tile into the message for the server. */
    method CompressOrDelta(pixmap: seq<Pixel>, startX: nat, startY: nat, width: nat, height: nat,
                           bufferWidth: nat, bufferHeight: nat, loc: TileLocation, wid: nat, forceKeyframe: bool)
      returns (output: seq<byte>)
      requires Valid()
      requires width % 2 == 0 && width <= 256 && height <= 256
      requires InPixmap(pixmap, bufferWidth, bufferHeight, startX, startY, width, height)
      modifies this
      ensures Valid() && maxEntries == old(maxEntries)
      ensures Encoded(old(Contents()), loc, Window(pixmap, bufferWidth, bufferHeight, startX, startY, width, height),
                      width, wid, forceKeyframe, mode, Contents(), output)
      ensures |output| > 0 && output[0] ==
        if loc in old(deltaEntries) && !forceKeyframe
           && old(deltaEntries)[loc].width == width && old(deltaEntries)[loc].height == height
        then 68 else 90
    {
      hide EncodeRows, Window, InPixmap, IsDelta, PackImage;
      var delta, rleData :=
        CreateDelta(pixmap, startX, startY, width, height, bufferWidth, bufferHeight, loc, wid, forceKeyframe);
      if delta.None? {
        var packed := PackTile(Window(pixmap, bufferWidth, bufferHeight, startX, startY, width, height), rleData.value, mode);
        output := [KEYFRAME_TAG] + packed;
      } else {
        output := [DELTA_TAG] + delta.value;
      }
    }

    /** All cached locations, oldest wire id first. */
    method SortedByWid() returns (sorted: seq<TileLocation>)
      ensures Enumerates(sorted, deltaEntries.Keys)
      ensures ByWid(sorted, deltaEntries)
    {
      sorted := [];
      var left := deltaEntries.Keys;
      while left != {}
        invariant left <= deltaEntries.Keys
        invariant Enumerates(sorted, deltaEntries.Keys - left)
        invariant ByWid(sorted, deltaEntries)
        decreases left
      {
        var l :| l in left;
        var at := 0;
        while at < |sorted| && deltaEntries[sorted[at]].wid < deltaEntries[l].wid
          invariant at <= |sorted|
          invariant forall i :: 0 <= i < at ==> deltaEntries[sorted[i]].wid < deltaEntries[l].wid
        {
          at := at + 1;
        }
        InsertSorted(sorted, at, l, deltaEntries, deltaEntries.Keys - left);
        sorted := sorted[..at] + [l] + sorted[at..];
        assert deltaEntries.Keys - left + {l} == deltaEntries.Keys - (left - {l});
        left := left - {l};
      }
      assert deltaEntries.Keys - {} == deltaEntries.Keys;
    }

    /** Erase the first n of the sorted entries. */
    method EraseFirst(sorted: seq<TileLocation>, n: nat)
      requires n <= |sorted| && Enumerates(sorted, deltaEntries.Keys) && images.Keys == deltaEntries.Keys
      modifies this`deltaEntries, this`images
      ensures deltaEntries == old(deltaEntries) - Firsts(sorted, n)
      ensures images == old(images) - Firsts(sorted, n)
      ensures |deltaEntries| == |old(deltaEntries)| - n
    {
      hide Firsts, Enumerates;
      NoFirsts(sorted);
      for i := 0 to n
        invariant deltaEntries == old(deltaEntries) - Firsts(sorted, i)
        invariant images == old(images) - Firsts(sorted, i)
        invariant |deltaEntries| == |old(deltaEntries)| - i
      {
        FirstsGrow(sorted, i, old(deltaEntries).Keys);
        Without(old(deltaEntries), Firsts(sorted, i), sorted[i]);
        Without(old(images), Firsts(sorted, i), sorted[i]);
        deltaEntries := deltaEntries - {sorted[i]};
        images := images - {sorted[i]};
      }
    }

    method RebalanceDeltasT(dropAll: bool)
      requires Valid()
      modifies this`deltaEntries, this`images
      ensures Valid()
      ensures Rebalanced(old(Contents()), Contents(), maxEntries, dropAll)
    {
      if |deltaEntries| > maxEntries || dropAll {
        hide Consistent, Rebalanced, RowInit.IsGatherLut, Enumerates, ByWid, Firsts;
        ConsistentKeys(Contents());
        var toRemove := |deltaEntries|;
        if !dropAll {
          toRemove := toRemove - maxEntries * 3 / 4;
        }
        var sorted := SortedByWid();
        EnumerationSize(sorted, deltaEntries.Keys);
        EraseFirst(sorted, toRemove);
        ErasedIsRebalanced(old(Contents()), Contents(), sorted, toRemove, maxEntries, dropAll);
        RebalancedConsistent(old(Contents()), Contents(), maxEntries, dropAll);
      }
    }

    /** Re-balances the cache; a positive limit becomes the new maximum. */
    method RebalanceDeltas(limit: int)
      requires Valid()
      modifies this
      ensures Valid() && maxEntries == (if limit > 0 then limit else old(maxEntries))
      ensures Rebalanced(old(Contents()), Contents(), maxEntries, false)
    {
      if limit > 0 {
        maxEntries := limit;
      }
      RebalanceDeltasT(false);
    }

    method SetSessionCount(count: nat)
      requires Valid()
      modifies this
      ensures Valid() && maxEntries == (if count > 1 then count else 1) * 96
      ensures Rebalanced(old(Contents()), Contents(), maxEntries, false)
    {
      RebalanceDeltas((if count > 1 then count else 1) * 96);
    }

    method DropCache()
      requires Valid()
      modifies this
      ensures Valid() && maxEntries == old(maxEntries) && Contents() == Cache(map[], map[])
    {
      RebalanceDeltasT(true);
    }
  }

  // ----- Sorted enumeration of the cache -----

  ghost predicate Enumerates(s: seq<TileLocation>, keys: set<TileLocation>) {
    && (forall l :: l in s <==> l in keys)
    && forall i, j :: 0 <= i < j < |s| ==> s[i] != s[j]
  }

  ghost predicate ByWid(s: seq<TileLocation>, m: map<TileLocation, DeltaData>) {
    && (forall i :: 0 <= i < |s| ==> s[i] in m)
    && forall i, j :: 0 <= i < j < |s| ==> m[s[i]].wid <= m[s[j]].wid
  }

  ghost function Firsts(s: seq<TileLocation>, n: nat): set<TileLocation>
    requires n <= |s|
  {
    set i | 0 <= i < n :: s[i]
  }

  lemma InsertSorted(s: seq<TileLocation>, at: nat, l: TileLocation, m: map<TileLocation, DeltaData>, keys: set<TileLocation>)
    requires Enumerates(s, keys) && ByWid(s, m) && l !in keys && l in m && at <= |s|
    requires forall i :: 0 <= i < at ==> m[s[i]].wid < m[l].wid
    requires at < |s| ==> m[l].wid <= m[s[at]].wid
    ensures Enumerates(s[..at] + [l] + s[at..], keys + {l})
    ensures ByWid(s[..at] + [l] + s[at..], m)
  {
    InsertEnumerates(s, at, l, keys);
    hide Enumerates;
    var t := s[..at] + [l] + s[at..];
    assert forall i :: 0 <= i < |t| ==> t[i] == if i < at then s[i] else if i == at then l else s[i - 1];
  }

  lemma InsertEnumerates(s: seq<TileLocation>, at: nat, l: TileLocation, keys: set<TileLocation>)
    requires Enumerates(s, keys) && l !in keys && at <= |s|
    ensures Enumerates(s[..at] + [l] + s[at..], keys + {l})
  {
    var t := s[..at] + [l] + s[at..];
    assert forall i :: 0 <= i < |t| ==> t[i] == if i < at then s[i] else if i == at then l else s[i - 1];
    InsertMembers(s, at, l);
  }

  lemma InsertMembers(s: seq<TileLocation>, at: nat, l: TileLocation)
    requires at <= |s|
    ensures forall x :: x in s[..at] + [l] + s[at..] <==> x in s || x == l
  {
    assert s == s[..at] + s[at..];
  }

  lemma NoFirsts(s: seq<TileLocation>)
    ensures Firsts(s, 0) == {}
  {
  }

  lemma FirstsGrow(s: seq<TileLocation>, n: nat, keys: set<TileLocation>)
    requires n < |s| && Enumerates(s, keys)
    ensures Firsts(s, n + 1) == Firsts(s, n) + {s[n]}
    ensures s[n] in keys && s[n] !in Firsts(s, n)
  {
  }

  lemma Without<V>(m: map<TileLocation, V>, a: set<TileLocation>, x: TileLocation)
    requires x in m && x !in a
    ensures m - a - {x} == m - (a + {x})
    ensures |m - (a + {x})| == |m - a| - 1
  {
    assert (m - (a + {x})).Keys == (m - a).Keys - {x};
    assert x in (m - a).Keys;
    assert |m - (a + {x})| == |(m - (a + {x})).Keys| && |m - a| == |(m - a).Keys|;
  }

  lemma ConsistentKeys(c: Cache)
    requires Consistent(c)
    ensures c.entries.Keys == c.images.Keys
  {
  }

  lemma ErasedIsRebalanced(c: Cache, c': Cache, sorted: seq<TileLocation>, n: nat, maxEntries: nat, dropAll: bool)
    requires Consistent(c) && Enumerates(sorted, c.entries.Keys) && ByWid(sorted, c.entries)
    requires |c.entries| > maxEntries || dropAll
    requires n == |c.entries| - (if dropAll then 0 else maxEntries * 3 / 4) <= |sorted|
    requires c'.entries == c.entries - Firsts(sorted, n) && c'.images == c.images - Firsts(sorted, n)
    requires |c'.entries| == |c.entries| - n
    ensures Rebalanced(c, c', maxEntries, dropAll)
  {
    hide Firsts, Enumerates, ByWid, Consistent;
    ConsistentKeys(c);
    OldestGone(c.entries, c'.entries, sorted, n);
    LeavesShrink(c.entries, c'.entries, Firsts(sorted, n));
    LeavesShrink(c.images, c'.images, Firsts(sorted, n));
  }

  lemma OldestGone(m: map<TileLocation, DeltaData>, m': map<TileLocation, DeltaData>, sorted: seq<TileLocation>, n: nat)
    requires Enumerates(sorted, m.Keys) && ByWid(sorted, m) && n <= |sorted| && m' == m - Firsts(sorted, n)
    ensures m'.Keys <= m.Keys
    ensures forall e, k :: e in m && e !in m' && k in m' ==> m[e].wid <= m[k].wid
  {
    hide Firsts, Enumerates, ByWid;
    OldestGo(sorted, m, n);
    var gone := Firsts(sorted, n);
    forall e, k | e in m && e !in m' && k in m'
      ensures k in m && m[e].wid <= m[k].wid
    {
      assert e in gone && k in m.Keys - gone;
    }
  }

  lemma LeavesShrink<V>(m: map<TileLocation, V>, m': map<TileLocation, V>, gone: set<TileLocation>)
    requires m' == m - gone
    ensures m'.Keys == m.Keys - gone
    ensures forall l :: l in m' ==> l in m && m'[l] == m[l]
  {
  }

  lemma {:induction false} EnumerationSize(s: seq<TileLocation>, keys: set<TileLocation>)
    requires Enumerates(s, keys)
    ensures |s| == |keys|
  {
    if s == [] {
      assert keys == {};
    } else {
      var n := |s| - 1;
      forall l
        ensures l in s[..n] <==> l in keys - {s[n]}
      {
        if l in keys && l != s[n] {
          var i :| 0 <= i < |s| && s[i] == l;
          assert s[..n][i] == l;
        }
      }
      EnumerationSize(s[..n], keys - {s[n]});
      assert s[n] in keys;
    }
  }

  lemma OldestGo(s: seq<TileLocation>, m: map<TileLocation, DeltaData>, n: nat)
    requires Enumerates(s, m.Keys) && ByWid(s, m) && n <= |s|
    ensures forall e, k :: e in Firsts(s, n) && k in m.Keys - Firsts(s, n) ==>
      e in m && m[e].wid <= m[k].wid
  {
    forall e, k | e in Firsts(s, n) && k in m.Keys - Firsts(s, n)
      ensures e in m && m[e].wid <= m[k].wid
    {
      var i :| 0 <= i < n && s[i] == e;
      assert k in s;
      var j :| 0 <= j < |s| && s[j] == k;
      assert n <= j;
    }
  }
}
