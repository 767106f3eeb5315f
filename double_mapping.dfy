/**
 * The double mapping of src/lib.rs (a reservation of 2 * C bytes whose two
 * halves are both mapped onto the same C-byte shared-memory object), as
 * values: the physical bytes are a sequence d and the mapped storage is
 * d + d, so storage index j reads d[j mod |d|].
 */
module DoubleMapping {
  import opened Bytes

  /** Storage index x below two laps, taken back to its physical position. */
  function Wrap(x: nat, c: nat): nat
    requires x < 2 * c
  {
    if x < c then x else x - c
  }

  /**
   * Physical byte i of c is reached by some storage index in [lo, hi): the
   * range covers a whole lap, or i lies in the (possibly wrapping) run of
   * hi - lo bytes from physical position lo mod c.
   */
  ghost predicate Reached(i: nat, lo: nat, hi: nat, c: nat) {
    var a := if lo < c then lo else lo - c;
    hi - lo >= c || a <= i < a + (hi - lo) || i + c < a + (hi - lo)
  }

  /** One more storage index j reaches exactly one more physical byte, j mod c. */
  lemma ReachedStep(lo: nat, j: nat, c: nat)
    requires lo <= j < 2 * c
    ensures forall i: nat :: i < c ==> (Reached(i, lo, j + 1, c) <==> Reached(i, lo, j, c) || i == Wrap(j, c))
  {
  }

  /** Every storage index in [lo, hi) reaches its physical byte. */
  lemma ReachedCovers(lo: nat, hi: nat, c: nat, j: nat)
    requires lo <= j < hi <= 2 * c
    ensures Reached(Wrap(j, c), lo, hi, c)
  {
  }

  /** Physical bytes that hold v wherever [lo, hi) reaches make the whole storage range read v. */
  lemma FilledRangeReads(d: seq<u8>, lo: nat, hi: nat, v: u8)
    requires lo <= hi <= 2 * |d|
    requires forall i :: 0 <= i < |d| && Reached(i, lo, hi, |d|) ==> d[i] == v
    ensures forall j :: lo <= j < hi ==> (d + d)[j] == v
  {
    forall j | lo <= j < hi
      ensures (d + d)[j] == v
    {
      ReachedCovers(lo, hi, |d|, j);
      StorageReads(d, j);
    }
  }

  /** Storage index j of the mapping reads physical byte j mod |d|. */
  lemma StorageReads(d: seq<u8>, j: nat)
    requires j < 2 * |d|
    ensures (d + d)[j] == d[Wrap(j, |d|)]
  {
  }

  /**
   * The k bytes at the write position h + u (wrapped) continue the u bytes
   * at h: through the mirror, [h, h + u + k) is one contiguous range.
   */
  lemma ExtendAtTail(d: seq<u8>, h: nat, u: nat, k: nat)
    requires h < |d| && u + k <= |d|
    ensures var t := Wrap(h + u, |d|);
            (d + d)[h..h + u + k] == (d + d)[h..h + u] + (d + d)[t..t + k]
  {
    var s, c := d + d, |d|;
    var t := Wrap(h + u, c);
    var ahead, claimed := s[h + u..h + u + k], s[t..t + k];
    if h + u >= c {
      forall i | 0 <= i < k
        ensures ahead[i] == claimed[i]
      {
        assert s[t + i] == s[t + i + c];
      }
    }
    assert ahead == claimed;
    assert s[h..h + u + k] == s[h..h + u] + ahead;
  }

  /** Dropping k of the u bytes at h leaves the u - k bytes at h + k (wrapped). */
  lemma DropAtHead(d: seq<u8>, h: nat, u: nat, k: nat)
    requires h < |d| && k <= u <= |d|
    ensures var g := Wrap(h + k, |d|);
            (d + d)[g..g + u - k] == (d + d)[h..h + u][k..]
  {
    var s, c := d + d, |d|;
    var g := Wrap(h + k, c);
    var rest, later := s[g..g + u - k], s[h..h + u][k..];
    if h + k >= c {
      forall i | 0 <= i < u - k
        ensures rest[i] == later[i]
      {
        assert s[g + i] == s[g + i + c];
      }
    }
    assert rest == later;
  }

  /**
   * Writing a physical byte that lies a < |d| - u places past the end of
   * the u bytes at h leaves those u bytes as they were.
   */
  lemma WriteSparesRange(d: seq<u8>, h: nat, u: nat, a: nat, v: u8)
    requires h < |d| && u + a < |d|
    ensures var p := Wrap(Wrap(h + u, |d|) + a, |d|);
            (d[p := v] + d[p := v])[h..h + u] == (d + d)[h..h + u]
  {
    var c := |d|;
    var p := Wrap(Wrap(h + u, c) + a, c);
    var e := d[p := v];
    var after, before := (e + e)[h..h + u], (d + d)[h..h + u];
    forall i | 0 <= i < u
      ensures after[i] == before[i]
    {
      StorageReads(e, h + i);
      StorageReads(d, h + i);
    }
    assert after == before;
  }

  /**
   * Writing v at the physical byte of storage index t + i extends the run of
   * i storage bytes at t by v, when the run is shorter than one lap.
   */
  lemma WriteExtendsRun(d: seq<u8>, t: nat, i: nat, v: u8)
    requires t < |d| && i < |d|
    ensures var p := Wrap(t + i, |d|);
            (d[p := v] + d[p := v])[t..t + i + 1] == (d + d)[t..t + i] + [v]
  {
    var p := Wrap(t + i, |d|);
    var e := d[p := v];
    WriteSparesRange(d, t, i, 0, v);
    StorageReads(e, t + i);
    assert (e + e)[t..t + i + 1] == (e + e)[t..t + i] + [(e + e)[t + i]];
  }

  /**
   * The physical bytes after b has been written, in order, to the storage
   * indices t, t + 1, ..., t + |b| - 1.
   */
  ghost function Copied(d: seq<u8>, t: nat, b: seq<u8>): (e: seq<u8>)
    requires t < |d| && |b| <= |d|
    ensures |e| == |d|
    decreases |b|
  {
    if b == [] then d
    else
      var n := |b| - 1;
      Copied(d, t, b[..n])[Wrap(t + n, |d|) := b[n]]
  }

  /** Copying one more byte of b writes it after the ones already copied. */
  lemma CopiedStep(d: seq<u8>, t: nat, b: seq<u8>, i: nat)
    requires t < |d| && i < |b| <= |d|
    ensures Copied(d, t, b[..i + 1]) == Copied(d, t, b[..i])[Wrap(t + i, |d|) := b[i]]
  {
    assert b[..i + 1][..i] == b[..i];
  }

  /** After the copy, the storage run at t reads b, across the wrap. */
  lemma {:induction false} CopiedReads(d: seq<u8>, t: nat, b: seq<u8>)
    requires t < |d| && |b| <= |d|
    ensures var e := Copied(d, t, b); (e + e)[t..t + |b|] == b
    decreases |b|
  {
    if b != [] {
      var n, front := |b| - 1, b[..|b| - 1];
      var before, e := Copied(d, t, front), Copied(d, t, b);
      assert e == before[Wrap(t + n, |d|) := b[n]];
      CopiedReads(d, t, front);
      WriteExtendsRun(before, t, n, b[n]);
      assert (e + e)[t..t + |b|] == front + [b[n]];
      assert b == front + [b[n]];
    }
  }

  /** A copy into the |d| - u bytes after the u bytes at h leaves those u bytes as they were. */
  lemma {:induction false} CopiedSpares(d: seq<u8>, h: nat, u: nat, b: seq<u8>)
    requires h < |d| && u + |b| <= |d|
    ensures var e := Copied(d, Wrap(h + u, |d|), b); (e + e)[h..h + u] == (d + d)[h..h + u]
    decreases |b|
  {
    if b != [] {
      var n := |b| - 1;
      CopiedSpares(d, h, u, b[..n]);
      WriteSparesRange(Copied(d, Wrap(h + u, |d|), b[..n]), h, u, n, b[n]);
    }
  }

  /** A copy of b to storage indices from t on changes no physical byte those indices do not reach. */
  lemma {:induction false} CopiedElsewhere(d: seq<u8>, t: nat, b: seq<u8>, i: nat)
    requires t < |d| && |b| <= |d| && i < |d| && !Reached(i, t, t + |b|, |d|)
    ensures Copied(d, t, b)[i] == d[i]
    decreases |b|
  {
    if b != [] {
      var n := |b| - 1;
      ReachedStep(t, t + n, |d|);
      CopiedElsewhere(d, t, b[..n], i);
    }
  }
}
