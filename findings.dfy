/**
 * The chunk step of the scanner as the source writes it, for the one table
 * where it differs from the step the rest of the model uses: when every motif
 * is one base long the overlap is 0, and Python's `buffer[-0:]` keeps the whole
 * buffer instead of none of it, so the next chunk scans those bases again at
 * shifted coordinates.
 */
module OverlapFinding {
  import opened Text
  import opened Fasta
  import opened Sites

  /** What one full-buffer step of the scan reports and leaves. */
  datatype Chunk = Chunk(found: seq<Site>, g: int, buffer: string)

  /** The full-buffer step as written: scan up to the overlap, advance, keep `buffer[-overlap_len:]`. */
  function ChunkAsWritten(chrom: Option<string>, enzymes: seq<Enzyme>, ov: nat, buffer: string, g: int): Chunk
  {
    Chunk(WindowHits(chrom, enzymes, Upper(buffer), 0, |buffer| - ov, g), g + (|buffer| - ov), PythonTail(buffer, ov))
  }

  /**
   * With the one-enzyme table `X = "A"` (overlap 0) and chunks of 2 bases, a
   * chromosome `c` read as the lines `AA`, `AA` has 4 bases; the as-written
   * second chunk rescans the first two bases at offset 2 and reports a site
   * starting at base 6, which the whole-chromosome scan does not have.
   */
  lemma {:induction false} OverlapZeroReportsPastTheEnd()
    ensures var T := [Enzyme("X", "A")];
      var c1 := ChunkAsWritten(Some("c"), T, 0, "AA", 0);
      var c2 := ChunkAsWritten(Some("c"), T, 0, c1.buffer + "AA", c1.g);
      && ValidTable(T) && OverlapLen(T) == 0
      && c1.buffer == "AA" && c1.g == 2 && c2.g == 6
      && Site(Some("c"), "X", 6, 6) in c2.found
      && Site(Some("c"), "X", 6, 6) !in ChromSites(Chrom("c", "AAAA"), T)
  {
    var T := [Enzyme("X", "A")];
    var s := Site(Some("c"), "X", 6, 6);
    OneBaseTable();
    var c1 := ChunkAsWritten(Some("c"), T, 0, "AA", 0);
    assert c1.buffer == "AA" && c1.g == 2;
    var c2 := ChunkAsWritten(Some("c"), T, 0, c1.buffer + "AA", c1.g);
    assert c1.buffer + "AA" == "AAAA";
    assert c2.found == WindowHits(Some("c"), T, Upper("AAAA"), 0, 4, 2);
    SiteAtThree(s);
    if s in ChromSites(Chrom("c", "AAAA"), T) {
      ChromSitesBounds(Chrom("c", "AAAA"), T, s);
    }
  }

  lemma {:induction false} OneBaseTable()
    ensures ValidTable([Enzyme("X", "A")]) && OverlapLen([Enzyme("X", "A")]) == 0
  {
    MaxMotifLenSpec([Enzyme("X", "A")]);
  }

  /** In `AAAA` shifted by 2, the motif `A` starting at offset 3 is the site at base 6. */
  lemma {:induction false} SiteAtThree(s: Site)
    requires s == Site(Some("c"), "X", 6, 6)
    ensures s in WindowHits(Some("c"), [Enzyme("X", "A")], Upper("AAAA"), 0, 4, 2)
  {
    var T := [Enzyme("X", "A")];
    var u := Upper("AAAA");
    assert u == "AAAA" by {
      forall k | 0 <= k < 4 ensures u[k] == 'A' {
        assert UpperChar('A') == 'A';
      }
    }
    assert u[3..4] == "A";
    assert Occurs(u, T[0].motif, 3);
    assert MotifSite(Some("c"), T[0], u, 0, 4, 2, s);
    WindowHitsMember(Some("c"), T, u, 0, 4, 2, s);
  }
}
