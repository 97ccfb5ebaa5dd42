/**
 * Enzyme motifs and the sites they have in a sequence: the enzyme table, the
 * sites of a window of a sequence, and the naive whole-chromosome scan that
 * the rolling-window scanner is proved against.
 */
module Sites {
  import opened Text
  import opened Fasta

  datatype Enzyme = Enzyme(name: string, motif: string)

  /** The enzyme table, in the dictionary's insertion order. */
  const ENZYMES: seq<Enzyme> := [
    Enzyme("EcoRI", "GAATTC"),
    Enzyme("BamHI", "GGATCC"),
    Enzyme("HindIII", "AAGCTT"),
    Enzyme("NotI", "GCGGCCGC")
  ]

  predicate ValidTable(enzymes: seq<Enzyme>)
  {
    forall k :: 0 <= k < |enzymes| ==> enzymes[k].motif != ""
  }

  predicate DistinctNames(enzymes: seq<Enzyme>)
  {
    forall j, k :: 0 <= j < k < |enzymes| ==> enzymes[j].name != enzymes[k].name
  }

  /** The length of the longest motif (0 for an empty table). */
  function MaxMotifLen(enzymes: seq<Enzyme>): (m: nat)
  {
    if enzymes == [] then 0
    else
      var m := MaxMotifLen(enzymes[..|enzymes| - 1]);
      var l := |enzymes[|enzymes| - 1].motif|;
      if l > m then l else m
  }

  /** `MaxMotifLen` bounds every motif and is attained by one of them. */
  lemma {:induction false} MaxMotifLenSpec(enzymes: seq<Enzyme>)
    ensures forall k :: 0 <= k < |enzymes| ==> |enzymes[k].motif| <= MaxMotifLen(enzymes)
    ensures enzymes != [] ==> exists k :: 0 <= k < |enzymes| && |enzymes[k].motif| == MaxMotifLen(enzymes)
  {
    if enzymes != [] {
      var init := enzymes[..|enzymes| - 1];
      MaxMotifLenSpec(init);
      assert forall k :: 0 <= k < |init| ==> init[k] == enzymes[k];
      var l := |enzymes[|enzymes| - 1].motif|;
      if l > MaxMotifLen(init) || init == [] {
        assert |enzymes[|enzymes| - 1].motif| == MaxMotifLen(enzymes);
      } else {
        var k :| 0 <= k < |init| && |init[k].motif| == MaxMotifLen(init);
        assert |enzymes[k].motif| == MaxMotifLen(enzymes);
      }
    }
  }

  /** `max(len(m) for m in motifs) - 1 if ENZYMES else 0` */
  function OverlapLen(enzymes: seq<Enzyme>): (ov: int)
    ensures ValidTable(enzymes) ==> ov >= 0
  {
    if enzymes == [] then 0
    else
      MaxMotifLenSpec(enzymes);
      assert |enzymes[0].motif| <= MaxMotifLen(enzymes);
      MaxMotifLen(enzymes) - 1
  }

  /** The overlap is one less than the longest motif, so every motif fits in `ov + 1` bases. */
  lemma {:induction false} OverlapLenSpec(enzymes: seq<Enzyme>)
    ensures forall k :: 0 <= k < |enzymes| ==> |enzymes[k].motif| <= OverlapLen(enzymes) + 1
    ensures enzymes != [] ==> exists k :: 0 <= k < |enzymes| && |enzymes[k].motif| == OverlapLen(enzymes) + 1
  {
    MaxMotifLenSpec(enzymes);
  }

  lemma {:induction false} EnzymeTable()
    ensures ValidTable(ENZYMES) && DistinctNames(ENZYMES)
    ensures OverlapLen(ENZYMES) == 7
  {
    MaxMotifLenSpec(ENZYMES);
    assert |ENZYMES[0].motif| == 6 && |ENZYMES[1].motif| == 6 && |ENZYMES[2].motif| == 6;
    assert |ENZYMES[3].motif| == 8;
  }

  /** A reported site: 1-based inclusive coordinates on the chromosome. */
  datatype Site = Site(chrom: Option<string>, enzyme: string, start: int, end: int)

  // ---------------------------------------------------------------------
  // Sites of a window
  // ---------------------------------------------------------------------

  /** The site of `e` whose motif starts at offset `p` of `u` (if any), on coordinates shifted by `g`. */
  function HitAt(chrom: Option<string>, e: Enzyme, u: string, p: int, g: int): seq<Site>
  {
    if Occurs(u, e.motif, p) then [Site(chrom, e.name, g + p + 1, g + p + |e.motif|)] else []
  }

  /** The sites of `e` starting at offsets lo, lo+1, .., hi-1 of `u`, in that order. */
  function EnzymeHits(chrom: Option<string>, e: Enzyme, u: string, lo: int, hi: int, g: int): seq<Site>
    decreases hi - lo
  {
    if hi <= lo then [] else EnzymeHits(chrom, e, u, lo, hi - 1, g) + HitAt(chrom, e, u, hi - 1, g)
  }

  /** The sites of every enzyme starting in [lo, hi) of `u`, enzyme by enzyme. */
  function WindowHits(chrom: Option<string>, enzymes: seq<Enzyme>, u: string, lo: int, hi: int, g: int): seq<Site>
  {
    if enzymes == [] then []
    else
      WindowHits(chrom, enzymes[..|enzymes| - 1], u, lo, hi, g)
      + EnzymeHits(chrom, enzymes[|enzymes| - 1], u, lo, hi, g)
  }

  // ---------------------------------------------------------------------
  // The naive specification over a whole FASTA file
  // ---------------------------------------------------------------------

  /** Every occurrence of every motif in the uppercased chromosome. */
  function ChromSites(c: Chrom, enzymes: seq<Enzyme>): seq<Site>
  {
    WindowHits(Some(c.name), enzymes, Upper(c.bases), 0, |c.bases|, 0)
  }

  function NaiveOf(cs: seq<Chrom>, enzymes: seq<Enzyme>): seq<Site>
  {
    if cs == [] then [] else NaiveOf(cs[..|cs| - 1], enzymes) + ChromSites(cs[|cs| - 1], enzymes)
  }

  /** The naive whole-chromosome scan of a file. */
  function NaiveScan(lines: seq<string>, enzymes: seq<Enzyme>): seq<Site>
  {
    NaiveOf(Chroms(lines), enzymes)
  }

  /** The sites that carry a chromosome name. */
  function Named(sites: seq<Site>): seq<Site>
  {
    if sites == [] then []
    else Named(sites[..|sites| - 1]) + if sites[|sites| - 1].chrom.Some? then [sites[|sites| - 1]] else []
  }

  /** An empty window reports nothing. */
  lemma {:induction false} WindowHitsEmpty(chrom: Option<string>, enzymes: seq<Enzyme>, u: string, lo: int, hi: int, g: int)
    requires hi <= lo
    ensures WindowHits(chrom, enzymes, u, lo, hi, g) == []
    decreases |enzymes|
  {
    if enzymes != [] {
      WindowHitsEmpty(chrom, enzymes[..|enzymes| - 1], u, lo, hi, g);
    }
  }

  // ---------------------------------------------------------------------
  // Window lemmas
  // ---------------------------------------------------------------------

  /** Offsets where a motif does not start contribute nothing. */
  lemma {:induction false} EnzymeHitsGap(chrom: Option<string>, e: Enzyme, u: string, lo: int, mid: int, hi: int, g: int)
    requires lo <= mid <= hi
    requires forall p :: mid <= p < hi ==> !Occurs(u, e.motif, p)
    ensures EnzymeHits(chrom, e, u, lo, hi, g) == EnzymeHits(chrom, e, u, lo, mid, g)
    decreases hi - mid
  {
    if hi > mid {
      EnzymeHitsGap(chrom, e, u, lo, mid, hi - 1, g);
    }
  }

  lemma {:induction false} EnzymeHitsSplit(chrom: Option<string>, e: Enzyme, u: string, lo: int, mid: int, hi: int, g: int)
    requires lo <= mid <= hi
    ensures EnzymeHits(chrom, e, u, lo, mid, g) + EnzymeHits(chrom, e, u, mid, hi, g) == EnzymeHits(chrom, e, u, lo, hi, g)
    decreases hi - mid
  {
    if hi > mid {
      EnzymeHitsSplit(chrom, e, u, lo, mid, hi - 1, g);
    }
  }

  /** Adjacent windows together report what their union reports, up to order. */
  lemma {:induction false} WindowHitsSplit(chrom: Option<string>, enzymes: seq<Enzyme>, u: string, lo: int, mid: int, hi: int, g: int)
    requires lo <= mid <= hi
    ensures multiset(WindowHits(chrom, enzymes, u, lo, mid, g)) + multiset(WindowHits(chrom, enzymes, u, mid, hi, g))
         == multiset(WindowHits(chrom, enzymes, u, lo, hi, g))
    decreases |enzymes|
  {
    if enzymes != [] {
      var e := enzymes[|enzymes| - 1];
      WindowHitsSplit(chrom, enzymes[..|enzymes| - 1], u, lo, mid, hi, g);
      EnzymeHitsSplit(chrom, e, u, lo, mid, hi, g);
    }
  }

  /** A slice `u` of `w` at `g` sees the same motif starts as `w`, where the motif fits in `u`. */
  lemma {:induction false} OccursShift(u: string, w: string, g: int, m: string, p: int)
    requires 0 <= g && g + |u| <= |w| && u == w[g..g + |u|]
    requires 0 <= p
    requires p + |m| <= |u| || g + |u| == |w|
    ensures Occurs(u, m, p) <==> Occurs(w, m, g + p)
  {
    if p + |m| <= |u| {
      var a, b := u[p..p + |m|], w[g + p..g + p + |m|];
      forall k | 0 <= k < |m| ensures a[k] == b[k] {
        assert u[p + k] == w[g..g + |u|][p + k];
      }
      assert a == b;
    }
  }

  lemma {:induction false} EnzymeHitsShift(chrom: Option<string>, e: Enzyme, u: string, w: string, g: int, lo: int, hi: int)
    requires 0 <= g && g + |u| <= |w| && u == w[g..g + |u|]
    requires 0 <= lo
    requires hi + |e.motif| <= |u| + 1 || g + |u| == |w|
    ensures EnzymeHits(chrom, e, u, lo, hi, g) == EnzymeHits(chrom, e, w, g + lo, g + hi, 0)
  {
    forall p | lo <= p < hi ensures Occurs(u, e.motif, p) <==> Occurs(w, e.motif, g + p) {
      OccursShift(u, w, g, e.motif, p);
    }
    EnzymeHitsMoved(chrom, e, u, w, g, lo, hi);
  }

  /** Two sequences with the same motif starts, `g` apart, report the same sites. */
  lemma {:induction false} EnzymeHitsMoved(chrom: Option<string>, e: Enzyme, u: string, w: string, g: int, lo: int, hi: int)
    requires forall p :: lo <= p < hi ==> (Occurs(u, e.motif, p) <==> Occurs(w, e.motif, g + p))
    ensures EnzymeHits(chrom, e, u, lo, hi, g) == EnzymeHits(chrom, e, w, g + lo, g + hi, 0)
    decreases hi - lo
  {
    if hi > lo {
      var h := hi - 1;
      EnzymeHitsMoved(chrom, e, u, w, g, lo, h);
      assert HitAt(chrom, e, u, h, g) == HitAt(chrom, e, w, g + h, 0);
    }
  }

  /** The sites of a chunk, reported with its offset, are the sites of the same window of the whole sequence. */
  lemma {:induction false} WindowHitsShift(chrom: Option<string>, enzymes: seq<Enzyme>, u: string, w: string, g: int, lo: int, hi: int)
    requires 0 <= g && g + |u| <= |w| && u == w[g..g + |u|]
    requires 0 <= lo
    requires hi + MaxMotifLen(enzymes) <= |u| + 1 || g + |u| == |w|
    ensures WindowHits(chrom, enzymes, u, lo, hi, g) == WindowHits(chrom, enzymes, w, g + lo, g + hi, 0)
    decreases |enzymes|
  {
    if enzymes != [] {
      var init := enzymes[..|enzymes| - 1];
      var e := enzymes[|enzymes| - 1];
      WindowHitsShift(chrom, init, u, w, g, lo, hi);
      EnzymeHitsShift(chrom, e, u, w, g, lo, hi);
    }
  }

  lemma {:induction false} EnzymeHitsNamed(chrom: Option<string>, e: Enzyme, u: string, lo: int, hi: int, g: int)
    ensures forall s | s in EnzymeHits(chrom, e, u, lo, hi, g) :: s.chrom == chrom
    decreases hi - lo
  {
    if hi > lo {
      EnzymeHitsNamed(chrom, e, u, lo, hi - 1, g);
    }
  }

  /** Every site of a window carries the window's chromosome. */
  lemma {:induction false} WindowHitsNamed(chrom: Option<string>, enzymes: seq<Enzyme>, u: string, lo: int, hi: int, g: int)
    ensures forall s | s in WindowHits(chrom, enzymes, u, lo, hi, g) :: s.chrom == chrom
    decreases |enzymes|
  {
    if enzymes != [] {
      WindowHitsNamed(chrom, enzymes[..|enzymes| - 1], u, lo, hi, g);
      EnzymeHitsNamed(chrom, enzymes[|enzymes| - 1], u, lo, hi, g);
    }
  }

  lemma {:induction false} NaiveOfNamed(cs: seq<Chrom>, enzymes: seq<Enzyme>)
    ensures forall s | s in NaiveOf(cs, enzymes) :: s.chrom.Some?
    decreases |cs|
  {
    if cs != [] {
      var c := cs[|cs| - 1];
      NaiveOfNamed(cs[..|cs| - 1], enzymes);
      WindowHitsNamed(Some(c.name), enzymes, Upper(c.bases), 0, |c.bases|, 0);
    }
  }

  // ---------------------------------------------------------------------
  // The named-site filter
  // ---------------------------------------------------------------------

  lemma {:induction false} NamedCount(sites: seq<Site>, s: Site)
    ensures multiset(Named(sites))[s] == if s.chrom.Some? then multiset(sites)[s] else 0
    decreases |sites|
  {
    if sites != [] {
      var init := sites[..|sites| - 1];
      NamedCount(init, s);
      assert sites == init + [sites[|sites| - 1]];
    }
  }

  lemma {:induction false} NamedMultiset(a: seq<Site>, b: seq<Site>)
    requires multiset(a) == multiset(b)
    ensures multiset(Named(a)) == multiset(Named(b))
  {
    forall s ensures multiset(Named(a))[s] == multiset(Named(b))[s] {
      NamedCount(a, s);
      NamedCount(b, s);
    }
  }

  lemma {:induction false} NamedAppend(a: seq<Site>, b: seq<Site>)
    ensures Named(a + b) == Named(a) + Named(b)
    decreases |b|
  {
    if b == [] {
      assert a + b == a;
    } else {
      var b' := b[..|b| - 1];
      assert (a + b)[..|a + b| - 1] == a + b';
      NamedAppend(a, b');
    }
  }

  lemma {:induction false} NamedOfNone(sites: seq<Site>)
    requires forall s | s in sites :: s.chrom.None?
    ensures Named(sites) == []
    decreases |sites|
  {
    if sites != [] {
      NamedOfNone(sites[..|sites| - 1]);
    }
  }

  lemma {:induction false} NamedOfSome(sites: seq<Site>)
    requires forall s | s in sites :: s.chrom.Some?
    ensures Named(sites) == sites
    decreases |sites|
  {
    if sites != [] {
      var init, last := sites[..|sites| - 1], sites[|sites| - 1];
      assert sites == init + [last];
      assert last in sites;
      NamedOfSome(init);
    }
  }

  // ---------------------------------------------------------------------
  // What the scans report, site by site
  // ---------------------------------------------------------------------

  /** `s` is the site of a start of `e`'s motif at an offset in [lo, hi) of `u`, shifted by `g`. */
  ghost predicate MotifSite(chrom: Option<string>, e: Enzyme, u: string, lo: int, hi: int, g: int, s: Site)
  {
    exists p :: lo <= p < hi && Occurs(u, e.motif, p) && s == Site(chrom, e.name, g + p + 1, g + p + |e.motif|)
  }

  /** A site of one enzyme in a window is exactly a start of its motif there, 1-based and inclusive. */
  lemma {:induction false} EnzymeHitsMember(chrom: Option<string>, e: Enzyme, u: string, lo: int, hi: int, g: int, s: Site)
    ensures s in EnzymeHits(chrom, e, u, lo, hi, g) <==> MotifSite(chrom, e, u, lo, hi, g, s)
    decreases hi - lo
  {
    if hi > lo {
      EnzymeHitsMember(chrom, e, u, lo, hi - 1, g, s);
      if s in HitAt(chrom, e, u, hi - 1, g) {
        assert Occurs(u, e.motif, hi - 1) && s == Site(chrom, e.name, g + (hi - 1) + 1, g + (hi - 1) + |e.motif|);
      }
    }
  }

  /** A site of a window is a start, in the window, of the motif of one of the enzymes. */
  lemma {:induction false} WindowHitsMember(chrom: Option<string>, enzymes: seq<Enzyme>, u: string, lo: int, hi: int, g: int,
                                            s: Site)
    ensures s in WindowHits(chrom, enzymes, u, lo, hi, g)
        <==> exists k :: 0 <= k < |enzymes| && MotifSite(chrom, enzymes[k], u, lo, hi, g, s)
    decreases |enzymes|
  {
    if enzymes != [] {
      var init, e := enzymes[..|enzymes| - 1], enzymes[|enzymes| - 1];
      WindowHitsMember(chrom, init, u, lo, hi, g, s);
      EnzymeHitsMember(chrom, e, u, lo, hi, g, s);
      assert forall k :: 0 <= k < |init| ==> init[k] == enzymes[k];
      if MotifSite(chrom, e, u, lo, hi, g, s) {
        assert MotifSite(chrom, enzymes[|enzymes| - 1], u, lo, hi, g, s);
      }
    }
  }

  /**
   * The naive scan of a chromosome reports, for each enzyme and each offset
   * where its motif starts in the uppercased sequence, the site spanning the
   * motif in 1-based inclusive coordinates, and nothing else.
   */
  lemma {:induction false} ChromSitesMember(c: Chrom, enzymes: seq<Enzyme>, s: Site)
    ensures s in ChromSites(c, enzymes)
        <==> exists k :: 0 <= k < |enzymes| && MotifSite(Some(c.name), enzymes[k], Upper(c.bases), 0, |c.bases|, 0, s)
  {
    WindowHitsMember(Some(c.name), enzymes, Upper(c.bases), 0, |c.bases|, 0, s);
  }

  /** With non-empty motifs, every site of a chromosome lies within it and spans its motif. */
  lemma {:induction false} ChromSitesBounds(c: Chrom, enzymes: seq<Enzyme>, s: Site)
    requires ValidTable(enzymes)
    requires s in ChromSites(c, enzymes)
    ensures s.chrom == Some(c.name)
    ensures 1 <= s.start <= s.end <= |c.bases|
    ensures exists k :: 0 <= k < |enzymes| && s.enzyme == enzymes[k].name && s.end - s.start + 1 == |enzymes[k].motif|
  {
    ChromSitesMember(c, enzymes, s);
    var k :| 0 <= k < |enzymes| && MotifSite(Some(c.name), enzymes[k], Upper(c.bases), 0, |c.bases|, 0, s);
    var p :| 0 <= p < |c.bases| && Occurs(Upper(c.bases), enzymes[k].motif, p)
             && s == Site(Some(c.name), enzymes[k].name, p + 1, p + |enzymes[k].motif|);
    assert enzymes[k].motif != "";
  }

  /** The naive scan of a file reports the sites of each of its chromosomes, and only those. */
  lemma {:induction false} NaiveOfMember(cs: seq<Chrom>, enzymes: seq<Enzyme>, s: Site)
    ensures s in NaiveOf(cs, enzymes) <==> exists j :: 0 <= j < |cs| && s in ChromSites(cs[j], enzymes)
    decreases |cs|
  {
    if cs != [] {
      var init, last := cs[..|cs| - 1], cs[|cs| - 1];
      NaiveOfMember(init, enzymes, s);
      assert NaiveOf(cs, enzymes) == NaiveOf(init, enzymes) + ChromSites(last, enzymes);
      if s in NaiveOf(init, enzymes) {
        var j :| 0 <= j < |init| && s in ChromSites(init[j], enzymes);
        assert init[j] == cs[j];
      } else if s in ChromSites(last, enzymes) {
        assert 0 <= |cs| - 1 < |cs|;
      } else {
        forall j | 0 <= j < |cs| ensures s !in ChromSites(cs[j], enzymes) {
          if j < |init| {
            assert init[j] == cs[j];
          }
        }
      }
    }
  }
}
