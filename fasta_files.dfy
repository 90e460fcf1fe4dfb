/**
 * The directory scan of genome_analyzer.py's `process_directory`, without
 * BUSCO: keep the entries whose name ends in a FASTA extension, compute the
 * statistics of each, and label the row with the name minus its last
 * extension.  Listing the directory and reading each file are outside the
 * model: the listing is given as (name, records) pairs in listing order.
 */
module FastaFiles {
  import opened Wrappers
  import opened PyStrings
  import opened AssemblyStats

  /** The extensions accepted, dot included. */
  predicate IsFastaExtension(ext: string)
  {
    ext == ".fasta" || ext == ".fa" || ext == ".fna"
  }

  /** `filename.endswith((".fasta", ".fa", ".fna"))`. */
  predicate IsFastaName(name: string)
  {
    EndsWith(name, ".fasta") || EndsWith(name, ".fa") || EndsWith(name, ".fna")
  }

  /** The "File" column: `filename.rsplit('.', 1)[0]`. */
  function Stem(name: string): string
  {
    RSplitHead(name, '.')
  }

  /** The stem of a name ending in an accepted extension is the name without that extension. */
  lemma StemDropsExtension(name: string, ext: string)
    requires IsFastaExtension(ext) && EndsWith(name, ext)
    ensures Stem(name) == name[..|name| - |ext|]
  {
    var i := |name| - |ext|;
    assert name[i] == ext[0] == '.';
    forall k | i < k < |name| ensures name[k] != '.' {
      assert name[k] == name[i..][k - i] == ext[k - i];
    }
    assert LastIndexOf(name, '.') == Some(i);
  }

  /** A FASTA name is its stem followed by exactly one accepted extension. */
  lemma FastaNameSplits(name: string)
    requires IsFastaName(name)
    ensures |Stem(name)| < |name| && name[..|Stem(name)|] == Stem(name)
    ensures IsFastaExtension(name[|Stem(name)|..])
  {
    var ext := if EndsWith(name, ".fasta") then ".fasta" else if EndsWith(name, ".fa") then ".fa" else ".fna";
    StemDropsExtension(name, ext);
    assert name[|Stem(name)|..] == ext;
  }

  /** One row of the data frame: the "File" label and the statistics. */
  datatype Row = Row(file: string, stats: Stats)

  /** The row a FASTA entry contributes. */
  function RowOf(entry: (string, seq<string>)): Row
  {
    Row(Stem(entry.0), StatsOf(entry.1))
  }

  /** The rows of `process_directory(..., include_busco=False)` for a listing, in listing order. */
  function RowsOf(listing: seq<(string, seq<string>)>): seq<Row>
  {
    if listing == [] then []
    else
      var last := listing[|listing| - 1];
      RowsOf(listing[..|listing| - 1]) + (if IsFastaName(last.0) then [RowOf(last)] else [])
  }

  /**
   * `process_directory` with `include_busco` false: one row per FASTA entry,
   * in listing order, labelled by its stem.
   */
  method ProcessDirectory(listing: seq<(string, seq<string>)>) returns (rows: seq<Row>)
    ensures rows == RowsOf(listing)
  {
    rows := [];
    for i := 0 to |listing|
      invariant rows == RowsOf(listing[..i])
    {
      assert listing[..i + 1][..i] == listing[..i];
      var (name, records) := listing[i];
      if IsFastaName(name) {
        var stats := ComputeStats(records);
        rows := rows + [Row(Stem(name), stats)];
      }
    }
    assert listing[..|listing|] == listing;
  }

  /** Scanning two listings one after the other gives the rows of each, in order. */
  lemma {:induction false} RowsOfAppend(a: seq<(string, seq<string>)>, b: seq<(string, seq<string>)>)
    ensures RowsOf(a + b) == RowsOf(a) + RowsOf(b)
    decreases |b|
  {
    if b != [] {
      assert (a + b)[..|a + b| - 1] == a + b[..|b| - 1];
      RowsOfAppend(a, b[..|b| - 1]);
    } else {
      assert a + b == a;
    }
  }

  /** Every row comes from a FASTA entry of the listing. */
  lemma {:induction false} RowsComeFromFastaEntries(listing: seq<(string, seq<string>)>)
    ensures |RowsOf(listing)| <= |listing|
    ensures forall r :: r in RowsOf(listing) ==>
              exists i :: 0 <= i < |listing| && IsFastaName(listing[i].0) && r == RowOf(listing[i])
  {
    if listing != [] {
      var init := listing[..|listing| - 1];
      RowsComeFromFastaEntries(init);
      forall r | r in RowsOf(listing)
        ensures exists i :: 0 <= i < |listing| && IsFastaName(listing[i].0) && r == RowOf(listing[i])
      {
        if r in RowsOf(init) {
          var i :| 0 <= i < |init| && IsFastaName(init[i].0) && r == RowOf(init[i]);
          assert listing[i] == init[i];
        } else {
          assert r == RowOf(listing[|listing| - 1]);
        }
      }
    }
  }

  /** Every FASTA entry of the listing has its row. */
  lemma {:induction false} FastaEntriesHaveRows(listing: seq<(string, seq<string>)>)
    ensures forall i :: 0 <= i < |listing| && IsFastaName(listing[i].0) ==> RowOf(listing[i]) in RowsOf(listing)
  {
    if listing != [] {
      var init := listing[..|listing| - 1];
      FastaEntriesHaveRows(init);
      forall i | 0 <= i < |listing| && IsFastaName(listing[i].0)
        ensures RowOf(listing[i]) in RowsOf(listing)
      {
        if i < |init| {
          assert listing[i] == init[i];
        }
      }
    }
  }
}
