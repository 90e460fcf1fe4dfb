/**
 * The parsing half of genome_analyzer.py's `parse_busco_results`: the lines
 * of a BUSCO short summary are classified by keyword, the leading integer of
 * each recognised line is stored under its key, and percentages are added
 * when the total is positive.  Finding and reading the summary file is
 * outside the model: the lines are given.
 */
module BuscoSummary {
  import opened Wrappers
  import opened PyStrings

  /** A value of the results dictionary: a count read from a line, or a derived percentage. */
  datatype Value = Count(n: int) | Percent(p: real)

  type Results = map<string, Value>

  /** The keys the line loop fills. */
  predicate IsCountKey(k: string)
  {
    k == "Complete_Single" || k == "Complete_Duplicated" || k == "Fragmented"
    || k == "Missing" || k == "Total"
  }

  /** The keys added when the total is positive. */
  predicate IsPercentKey(k: string)
  {
    k == "Complete_Single_Percent" || k == "Complete_Duplicated_Percent"
    || k == "Fragmented_Percent" || k == "Missing_Percent" || k == "Complete_Percent"
  }

  /**
   * The key a stripped line sets, by the first keyword test it passes, in
   * the source's order; `None` for a line no test recognises.
   */
  function KeyOf(line: string): (k: Option<string>)
    ensures k.Some? ==> IsCountKey(k.value)
  {
    if Contains(line, "Complete") && Contains(line, "Single") then Some("Complete_Single")
    else if Contains(line, "Complete") && Contains(line, "Duplicated") then Some("Complete_Duplicated")
    else if Contains(line, "Fragmented") then Some("Fragmented")
    else if Contains(line, "Missing") then Some("Missing")
    else if Contains(line, "Total") then Some("Total")
    else None
  }

  /** `int(line.split()[0])`, `None` where Python raises. */
  function LeadingInt(line: string): Option<int>
  {
    match FirstToken(line)
    case None => None
    case Some(w) => ParseInt(w)
  }

  /**
   * A recognised line is never blank: `split()[0]` always finds a token on it,
   * so the only way `int(line.split()[0])` can fail is `int()` rejecting that token.
   */
  lemma RecognisedLineHasToken(line: string)
    requires KeyOf(line).Some?
    ensures FirstToken(line).Some?
    ensures LeadingInt(line) == ParseInt(FirstToken(line).value)
  {
    var p := if Contains(line, "Complete") then "Complete"
             else if Contains(line, "Fragmented") then "Fragmented"
             else if Contains(line, "Missing") then "Missing"
             else "Total";
    assert Contains(line, p);
    ContainsIff(line, p);
    var i: nat :| OccursAt(line, p, i);
    assert line[i] == line[i..i + |p|][0] == p[0];
    assert !IsSpace(line[i]);
    FirstTokenShape(line);
  }

  /** A raw line that makes the whole parse fail: recognised, but without a leading integer. */
  predicate IsBadLine(raw: string)
  {
    KeyOf(Strip(raw)).Some? && LeadingInt(Strip(raw)).None?
  }

  /** One iteration of the line loop; `None` stands for the exception that aborts the parse. */
  function Step(results: Results, raw: string): Option<Results>
  {
    var line := Strip(raw);
    match KeyOf(line)
    case None => Some(results)
    case Some(k) =>
      match LeadingInt(line)
      case None => None
      case Some(v) => Some(results[k := Count(v)])
  }

  /** The line loop from `results` over the remaining `lines`. */
  function ParseFrom(results: Results, lines: seq<string>): Option<Results>
    decreases |lines|
  {
    if lines == [] then Some(results)
    else
      match Step(results, lines[0])
      case None => None
      case Some(next) => ParseFrom(next, lines[1..])
  }

  /** `results.get(k, 0)` for a count key. */
  function CountOr0(results: Results, k: string): int
  {
    if k in results && results[k].Count? then results[k].n else 0
  }

  /** `(results.get(k, 0) / results["Total"]) * 100`, unrounded. */
  function Share(count: int, total: int): real
    requires total > 0
  {
    (count as real / total as real) * 100.0
  }

  /** The percentage block: five derived keys, added only when Total is positive. */
  function AddPercents(results: Results): Results
  {
    var total := CountOr0(results, "Total");
    if total > 0 then
      var single := CountOr0(results, "Complete_Single");
      var duplicated := CountOr0(results, "Complete_Duplicated");
      results["Complete_Single_Percent" := Percent(Share(single, total))]
             ["Complete_Duplicated_Percent" := Percent(Share(duplicated, total))]
             ["Fragmented_Percent" := Percent(Share(CountOr0(results, "Fragmented"), total))]
             ["Missing_Percent" := Percent(Share(CountOr0(results, "Missing"), total))]
             ["Complete_Percent" := Percent(Share(single + duplicated, total))]
    else results
  }

  /** What `parse_busco_results` returns for the summary's lines. */
  function SummaryOf(lines: seq<string>): Option<Results>
  {
    match ParseFrom(map[], lines)
    case None => None
    case Some(counts) => Some(AddPercents(counts))
  }

  /** Unfolds the line loop at position `i`. */
  lemma ParseFromAt(results: Results, lines: seq<string>, i: nat)
    requires i < |lines|
    ensures ParseFrom(results, lines[i..])
            == match Step(results, lines[i])
               case None => None
               case Some(next) => ParseFrom(next, lines[i + 1..])
  {
    assert lines[i..][0] == lines[i];
    assert lines[i..][1..] == lines[i + 1..];
  }

  /**
   * `parse_busco_results` after the file is read: strip each line, dispatch
   * on its keywords, store its leading integer, and give up with `None` on
   * the first recognised line whose first token is not an integer.
   */
  method ParseBuscoSummary(lines: seq<string>) returns (r: Option<Results>)
    ensures r == SummaryOf(lines)
  {
    var results: Results := map[];
    for i := 0 to |lines|
      invariant ParseFrom(results, lines[i..]) == ParseFrom(map[], lines)
    {
      ParseFromAt(results, lines, i);
      var line := Strip(lines[i]);
      if Contains(line, "Complete") && Contains(line, "Single") {
        var v := LeadingInt(line);
        if v.None? { return None; }
        results := results["Complete_Single" := Count(v.value)];
      } else if Contains(line, "Complete") && Contains(line, "Duplicated") {
        var v := LeadingInt(line);
        if v.None? { return None; }
        results := results["Complete_Duplicated" := Count(v.value)];
      } else if Contains(line, "Fragmented") {
        var v := LeadingInt(line);
        if v.None? { return None; }
        results := results["Fragmented" := Count(v.value)];
      } else if Contains(line, "Missing") {
        var v := LeadingInt(line);
        if v.None? { return None; }
        results := results["Missing" := Count(v.value)];
      } else if Contains(line, "Total") {
        var v := LeadingInt(line);
        if v.None? { return None; }
        results := results["Total" := Count(v.value)];
      }
    }
    assert lines[|lines|..] == [];
    results := AddPercentages(results);
    return Some(results);
  }

  /**
   * The percentage block of `parse_busco_results`: when Total is positive,
   * each count's share of it, and the complete share from single-copy plus
   * duplicated.
   */
  method AddPercentages(counts: Results) returns (results: Results)
    ensures results == AddPercents(counts)
  {
    results := counts;
    if CountOr0(results, "Total") > 0 {
      var total := CountOr0(results, "Total");
      var single := CountOr0(results, "Complete_Single");
      var duplicated := CountOr0(results, "Complete_Duplicated");
      var fragmented := CountOr0(results, "Fragmented");
      var missing := CountOr0(results, "Missing");
      results := results["Complete_Single_Percent" := Percent(Share(single, total))];
      results := results["Complete_Duplicated_Percent" := Percent(Share(duplicated, total))];
      results := results["Fragmented_Percent" := Percent(Share(fragmented, total))];
      results := results["Missing_Percent" := Percent(Share(missing, total))];
      results := results["Complete_Percent" := Percent(Share(single + duplicated, total))];
    }
  }

  /** The key a raw line of the summary sets, if any. */
  function LineKey(raw: string): Option<string>
  {
    KeyOf(Strip(raw))
  }

  /** One iteration aborts exactly on a bad line. */
  lemma StepFails(results: Results, raw: string)
    ensures Step(results, raw).None? <==> IsBadLine(raw)
    ensures Step(results, raw).Some? ==>
      match LineKey(raw)
      case None => Step(results, raw).value == results
      case Some(k) => Step(results, raw).value == results[k := Count(LeadingInt(Strip(raw)).value)]
  {
  }

  /** The line loop aborts exactly when some line is bad, whatever it starts from. */
  lemma {:induction false} ParseFailsIff(results: Results, lines: seq<string>)
    ensures ParseFrom(results, lines).None? <==> exists i :: 0 <= i < |lines| && IsBadLine(lines[i])
    decreases |lines|
  {
    if lines != [] {
      StepFails(results, lines[0]);
      match Step(results, lines[0])
      case None =>
      case Some(next) =>
        ParseFailsIff(next, lines[1..]);
        if exists i :: 0 <= i < |lines| && IsBadLine(lines[i]) {
          var i :| 0 <= i < |lines| && IsBadLine(lines[i]);
          assert i > 0;
          assert IsBadLine(lines[1..][i - 1]);
        }
    }
  }

  /** `parse_busco_results` gives up exactly when a recognised line has no leading integer. */
  lemma SummaryFailsIff(lines: seq<string>)
    ensures SummaryOf(lines).None? <==> exists i :: 0 <= i < |lines| && IsBadLine(lines[i])
  {
    ParseFailsIff(map[], lines);
  }

  /** Shifting the "no later line sets `k`" condition onto the tail. */
  lemma TailAvoids(lines: seq<string>, j: nat, k: string)
    requires j < |lines|
    requires forall i :: j < i < |lines| ==> LineKey(lines[i]) != Some(k)
    ensures forall i :: j <= i < |lines[1..]| ==> LineKey(lines[1..][i]) != Some(k)
  {
    forall i | j <= i < |lines[1..]| ensures LineKey(lines[1..][i]) != Some(k) {
      assert lines[1..][i] == lines[i + 1];
    }
  }

  /** Some line sets `k` exactly when the first does or some line of the tail does. */
  lemma SomeLineSets(lines: seq<string>, k: string)
    requires lines != []
    ensures (exists i :: 0 <= i < |lines| && LineKey(lines[i]) == Some(k))
            <==> LineKey(lines[0]) == Some(k) || exists i :: 0 <= i < |lines[1..]| && LineKey(lines[1..][i]) == Some(k)
  {
    if exists i :: 0 <= i < |lines[1..]| && LineKey(lines[1..][i]) == Some(k) {
      var i :| 0 <= i < |lines[1..]| && LineKey(lines[1..][i]) == Some(k);
      assert LineKey(lines[i + 1]) == Some(k);
    }
    if exists i :: 0 <= i < |lines| && LineKey(lines[i]) == Some(k) {
      var i :| 0 <= i < |lines| && LineKey(lines[i]) == Some(k);
      if i > 0 {
        assert LineKey(lines[1..][i - 1]) == Some(k);
      }
    }
  }

  /** One line that does not set `k` leaves `k` alone. */
  lemma StepKeeps(results: Results, raw: string, k: string)
    requires Step(results, raw).Some? && LineKey(raw) != Some(k)
    ensures k in Step(results, raw).value <==> k in results
    ensures k in results ==> Step(results, raw).value[k] == results[k]
  {
  }

  /** A key no remaining line sets keeps its presence and its value. */
  lemma {:induction false} UntouchedKeyKept(results: Results, lines: seq<string>, r: Results, k: string)
    requires ParseFrom(results, lines) == Some(r)
    requires forall i :: 0 <= i < |lines| ==> LineKey(lines[i]) != Some(k)
    ensures k in r <==> k in results
    ensures k in results ==> r[k] == results[k]
    decreases |lines|
  {
    if lines != [] {
      var next := Step(results, lines[0]).value;
      StepKeeps(results, lines[0], k);
      TailAvoids(lines, 0, k);
      UntouchedKeyKept(next, lines[1..], r, k);
    }
  }

  /** The parsed dictionary holds the starting keys plus every key some line sets. */
  lemma {:induction false} ParsedKeys(results: Results, lines: seq<string>, r: Results, k: string)
    requires ParseFrom(results, lines) == Some(r)
    ensures k in r <==> k in results || exists i :: 0 <= i < |lines| && LineKey(lines[i]) == Some(k)
    decreases |lines|
  {
    if lines != [] {
      StepFails(results, lines[0]);
      var next := Step(results, lines[0]).value;
      ParsedKeys(next, lines[1..], r, k);
      SomeLineSets(lines, k);
    }
  }

  /** The line that sets `k` last decides its value when no line after it sets `k`. */
  lemma LastLineIsFirst(results: Results, lines: seq<string>, r: Results, k: string)
    requires ParseFrom(results, lines) == Some(r)
    requires lines != [] && LineKey(lines[0]) == Some(k)
    requires forall i :: 0 < i < |lines| ==> LineKey(lines[i]) != Some(k)
    ensures LeadingInt(Strip(lines[0])).Some?
    ensures k in r && r[k] == Count(LeadingInt(Strip(lines[0])).value)
  {
    StepFails(results, lines[0]);
    var next := Step(results, lines[0]).value;
    assert next == results[k := Count(LeadingInt(Strip(lines[0])).value)];
    TailAvoids(lines, 0, k);
    UntouchedKeyKept(next, lines[1..], r, k);
  }

  /** The last line that sets a key decides its value: later lines overwrite earlier ones. */
  lemma {:induction false} LastLineWins(results: Results, lines: seq<string>, r: Results, j: nat, k: string)
    requires ParseFrom(results, lines) == Some(r)
    requires j < |lines| && LineKey(lines[j]) == Some(k)
    requires forall i :: j < i < |lines| ==> LineKey(lines[i]) != Some(k)
    ensures LeadingInt(Strip(lines[j])).Some?
    ensures k in r && r[k] == Count(LeadingInt(Strip(lines[j])).value)
    decreases |lines|
  {
    if j == 0 {
      LastLineIsFirst(results, lines, r, k);
    } else {
      StepFails(results, lines[0]);
      var next := Step(results, lines[0]).value;
      TailAvoids(lines, j, k);
      assert lines[1..][j - 1] == lines[j];
      LastLineWins(next, lines[1..], r, j - 1, k);
    }
  }

  /** The percentage block leaves the counts alone. */
  lemma AddPercentsKeepsCounts(results: Results, k: string)
    requires IsCountKey(k)
    ensures k in AddPercents(results) <==> k in results
    ensures k in results ==> AddPercents(results)[k] == results[k]
  {
  }

  /**
   * Percentages appear exactly when Total is positive, and nothing else is
   * added; each is its count's share of Total in percent, a missing count
   * giving 0, and the complete share counts single-copy and duplicated together.
   */
  lemma AddPercentsKeys(results: Results)
    ensures CountOr0(results, "Total") <= 0 ==> AddPercents(results) == results
    ensures CountOr0(results, "Total") > 0 ==>
      AddPercents(results).Keys == results.Keys + {"Complete_Single_Percent", "Complete_Duplicated_Percent",
        "Fragmented_Percent", "Missing_Percent", "Complete_Percent"}
    ensures CountOr0(results, "Total") > 0 ==>
      && AddPercents(results)["Complete_Single_Percent"].p
         == CountOr0(results, "Complete_Single") as real / CountOr0(results, "Total") as real * 100.0
      && AddPercents(results)["Complete_Duplicated_Percent"].p
         == CountOr0(results, "Complete_Duplicated") as real / CountOr0(results, "Total") as real * 100.0
      && AddPercents(results)["Fragmented_Percent"].p
         == CountOr0(results, "Fragmented") as real / CountOr0(results, "Total") as real * 100.0
      && AddPercents(results)["Missing_Percent"].p
         == CountOr0(results, "Missing") as real / CountOr0(results, "Total") as real * 100.0
      && AddPercents(results)["Complete_Percent"].p
         == (CountOr0(results, "Complete_Single") + CountOr0(results, "Complete_Duplicated")) as real
            / CountOr0(results, "Total") as real * 100.0
    ensures CountOr0(results, "Total") > 0 ==>
      && ("Complete_Single" !in results ==> AddPercents(results)["Complete_Single_Percent"] == Percent(0.0))
      && ("Complete_Duplicated" !in results ==> AddPercents(results)["Complete_Duplicated_Percent"] == Percent(0.0))
      && ("Fragmented" !in results ==> AddPercents(results)["Fragmented_Percent"] == Percent(0.0))
      && ("Missing" !in results ==> AddPercents(results)["Missing_Percent"] == Percent(0.0))
  {
  }

  /** The complete share is the single-copy share plus the duplicated share. */
  lemma CompleteIsSinglePlusDuplicated(results: Results)
    requires CountOr0(results, "Total") > 0
    ensures AddPercents(results)["Complete_Percent"].p
            == AddPercents(results)["Complete_Single_Percent"].p + AddPercents(results)["Complete_Duplicated_Percent"].p
  {
    var total := CountOr0(results, "Total");
    var single := CountOr0(results, "Complete_Single");
    var duplicated := CountOr0(results, "Complete_Duplicated");
    ShareAdds(single, duplicated, total);
  }

  lemma ShareAdds(a: int, b: int, total: int)
    requires total > 0
    ensures Share(a + b, total) == Share(a, total) + Share(b, total)
  {
    var t := total as real;
    assert (a + b) as real / t == a as real / t + b as real / t;
  }

  /** When the four categories account for every searched BUSCO, their shares sum to 100. */
  lemma SharesSumTo100(results: Results)
    requires CountOr0(results, "Total") > 0
    requires CountOr0(results, "Complete_Single") + CountOr0(results, "Complete_Duplicated")
             + CountOr0(results, "Fragmented") + CountOr0(results, "Missing") == CountOr0(results, "Total")
    ensures AddPercents(results)["Complete_Single_Percent"].p + AddPercents(results)["Complete_Duplicated_Percent"].p
            + AddPercents(results)["Fragmented_Percent"].p + AddPercents(results)["Missing_Percent"].p == 100.0
  {
    var total := CountOr0(results, "Total");
    var s := CountOr0(results, "Complete_Single");
    var d := CountOr0(results, "Complete_Duplicated");
    var f := CountOr0(results, "Fragmented");
    var m := CountOr0(results, "Missing");
    ShareAdds(s, d, total);
    ShareAdds(s + d, f, total);
    ShareAdds(s + d + f, m, total);
    assert Share(total, total) == 100.0;
  }

  /** A successful parse holds only the five counts and the five percentages. */
  lemma {:induction false} SummaryKeys(lines: seq<string>)
    ensures SummaryOf(lines).Some? ==> forall k :: k in SummaryOf(lines).value ==> IsCountKey(k) || IsPercentKey(k)
  {
    match ParseFrom(map[], lines)
    case None =>
    case Some(counts) =>
      AddPercentsKeys(counts);
      forall k | k in SummaryOf(lines).value ensures IsCountKey(k) || IsPercentKey(k) {
        ParsedKeys(map[], lines, counts, k);
      }
  }
}
