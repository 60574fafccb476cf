/** The dashboard helpers of app/utils.py: country names taken from the
    cleaned files' names, all cleaned files stacked into one table tagged
    with a Country column, and the summary, ranking and test guard computed
    by grouping that table on Country. The directory listing and the parsed
    files are inputs: `listing` holds each directory entry's name with the
    table read from it. */
module AppUtils {
  import opened Tables
  import opened Stats
  import opened Strings
  import opened CountryTables

  const CleanStemSuffix: string := "_clean"

  /** The name matches the glob "*_clean.csv". */
  predicate IsCleanFile(name: string)
  {
    |name| >= |CleanFileSuffix| && name[|name| - |CleanFileSuffix|..] == CleanFileSuffix
  }

  // ------------------------- get_available_countries -------------------------

  /** The name listed for a directory entry: if it matches the glob, its
      name with every "_clean.csv" removed. */
  function ListedName(name: string): Option<string>
  {
    if IsCleanFile(name) then Some(RemoveAll(name, CleanFileSuffix)) else None
  }

  /** get_available_countries: the listed names, in listing order. */
  function AvailableCountries(names: seq<string>): (r: seq<string>)
    ensures |r| <= |names|
  {
    if names == [] then []
    else
      var listed := ListedName(names[|names| - 1]);
      AvailableCountries(names[..|names| - 1]) + (if listed.Some? then [listed.value] else [])
  }

  function CleanCount(names: seq<string>): nat
  {
    if names == [] then 0
    else CleanCount(names[..|names| - 1]) + (if IsCleanFile(names[|names| - 1]) then 1 else 0)
  }

  /** One name per matched file, and each is that file's name with every
      "_clean.csv" removed. */
  lemma AvailableCountriesSpec(names: seq<string>)
    ensures |AvailableCountries(names)| == CleanCount(names)
    ensures forall c :: c in AvailableCountries(names) <==>
              exists k :: 0 <= k < |names| && ListedName(names[k]) == Some(c)
  {
    AvailableCountriesCount(names);
    forall c ensures c in AvailableCountries(names) <==> exists k :: 0 <= k < |names| && ListedName(names[k]) == Some(c) {
      AvailableCountry(names, c);
    }
  }

  /** The names follow the listing: the matched file at position k gives
      the name after those of the matched files before it. */
  lemma {:induction false} AvailableCountryAt(names: seq<string>, k: int)
    requires 0 <= k < |names| && IsCleanFile(names[k])
    ensures CleanCount(names[..k]) < |AvailableCountries(names)|
    ensures AvailableCountries(names)[CleanCount(names[..k])] == RemoveAll(names[k], CleanFileSuffix)
  {
    var n := |names| - 1;
    var init := names[..n];
    var listed := ListedName(names[n]);
    var tail := if listed.Some? then [listed.value] else [];
    assert AvailableCountries(names) == AvailableCountries(init) + tail;
    AvailableCountriesCount(init);
    if k == n {
      assert names[..k] == init;
    } else {
      assert init[k] == names[k];
      assert init[..k] == names[..k];
      AvailableCountryAt(init, k);
    }
  }

  lemma {:induction false} AvailableCountriesCount(names: seq<string>)
    ensures |AvailableCountries(names)| == CleanCount(names)
  {
    if names != [] {
      AvailableCountriesCount(names[..|names| - 1]);
    }
  }

  lemma {:induction false} AvailableCountry(names: seq<string>, c: string)
    ensures c in AvailableCountries(names) <==> exists k :: 0 <= k < |names| && ListedName(names[k]) == Some(c)
  {
    if names != [] {
      var n := |names| - 1;
      var init := names[..n];
      var listed := ListedName(names[n]);
      var tail := if listed.Some? then [listed.value] else [];
      assert AvailableCountries(names) == AvailableCountries(init) + tail;
      AvailableCountry(init, c);
      if c in tail {
        assert ListedName(names[n]) == Some(c);
      }
      if exists k :: 0 <= k < n && ListedName(init[k]) == Some(c) {
        var k :| 0 <= k < n && ListedName(init[k]) == Some(c);
        assert names[k] == init[k];
      }
      if exists k :: 0 <= k < n && ListedName(names[k]) == Some(c) {
        var k :| 0 <= k < n && ListedName(names[k]) == Some(c);
        assert names[k] == init[k];
      }
    }
  }

  lemma CleanFileSuffixBorderFree()
    ensures BorderFree(CleanFileSuffix)
    ensures BorderFree(CleanStemSuffix)
  {
  }

  /** A country's file "<country>_clean.csv" gives back the country, as long
      as the country's own name does not contain "_clean.csv". */
  lemma AvailableCountryOfFile(country: string)
    requires !Occurs(country, CleanFileSuffix)
    ensures ListedName(FileName(country)) == Some(country)
  {
    var name := FileName(country);
    assert name[|name| - |CleanFileSuffix|..] == CleanFileSuffix;
    CleanFileSuffixBorderFree();
    RemoveAllSuffix(country, CleanFileSuffix);
  }

  // --------------------------- load_all_countries ---------------------------

  /** file.stem.replace("_clean", "").capitalize() */
  function CountryLabel(fileName: string): string
  {
    Capitalize(RemoveAll(Stem(fileName), CleanStemSuffix))
  }

  /** For a file "<country>_clean.csv" whose country has no dot and no
      "_clean" in it, the label is the capitalized country, that is the
      capitalized name get_available_countries lists for the same file. */
  lemma CountryLabelOfFile(country: string)
    requires forall k :: 0 <= k < |country| ==> country[k] != '.'
    requires !Occurs(country, CleanStemSuffix)
    ensures CountryLabel(FileName(country)) == Capitalize(country)
    ensures !Occurs(country, CleanFileSuffix) ==> ListedName(FileName(country)) == Some(country)
  {
    var base := country + CleanStemSuffix;
    assert FileName(country) == base + "." + "csv";
    StemOfSuffixed(base, "csv");
    CleanFileSuffixBorderFree();
    RemoveAllSuffix(country, CleanStemSuffix);
    if !Occurs(country, CleanFileSuffix) {
      AvailableCountryOfFile(country);
    }
  }

  /** The (label, table) pair a directory entry contributes: one when its
      name matches the glob, none otherwise. */
  function LabelledFile(entry: (string, Table)): Option<(string, Table)>
  {
    if IsCleanFile(entry.0) then Some((CountryLabel(entry.0), entry.1)) else None
  }

  /** The (label, table) pairs of the matched files, in listing order. */
  function LabelledFiles(listing: seq<(string, Table)>): (r: seq<(string, Table)>)
    ensures |r| <= |listing|
  {
    if listing == [] then []
    else
      var file := LabelledFile(listing[|listing| - 1]);
      LabelledFiles(listing[..|listing| - 1]) + (if file.Some? then [file.value] else [])
  }

  /** The number of rows of the matched files. */
  function CleanRowTotal(listing: seq<(string, Table)>): nat
  {
    if listing == [] then 0
    else
      var last := listing[|listing| - 1];
      CleanRowTotal(listing[..|listing| - 1]) + (if IsCleanFile(last.0) then |last.1.rows| else 0)
  }

  /** What load_all_countries returns: the empty DataFrame (None: not even a
      Country column) when no file matches, else the tagged tables stacked. */
  function LoadedFrame(listing: seq<(string, Table)>): Option<CountryTable>
  {
    var parts := LabelledFiles(listing);
    if parts == [] then None else Some(Concat(parts))
  }

  lemma LabelledFilesSpec(listing: seq<(string, Table)>)
    ensures LabelledFiles(listing) == [] <==> forall k :: 0 <= k < |listing| ==> !IsCleanFile(listing[k].0)
    ensures TotalRows(LabelledFiles(listing)) == CleanRowTotal(listing)
    ensures forall p :: p in LabelledFiles(listing) <==> exists k :: 0 <= k < |listing| && LabelledFile(listing[k]) == Some(p)
  {
    LabelledFilesEmpty(listing);
    LabelledFilesRows(listing);
    forall p ensures p in LabelledFiles(listing) <==> exists k :: 0 <= k < |listing| && LabelledFile(listing[k]) == Some(p)
    {
      LabelledFileMember(listing, p);
    }
  }

  lemma {:induction false} LabelledFilesEmpty(listing: seq<(string, Table)>)
    ensures LabelledFiles(listing) == [] <==> forall k :: 0 <= k < |listing| ==> !IsCleanFile(listing[k].0)
  {
    if listing != [] {
      var n := |listing| - 1;
      LabelledFilesEmpty(listing[..n]);
      assert forall k :: 0 <= k < n ==> listing[..n][k] == listing[k];
    }
  }

  lemma {:induction false} LabelledFilesRows(listing: seq<(string, Table)>)
    ensures TotalRows(LabelledFiles(listing)) == CleanRowTotal(listing)
  {
    if listing != [] {
      var n := |listing| - 1;
      var init := listing[..n];
      LabelledFilesRows(init);
      var parts := LabelledFiles(listing);
      if IsCleanFile(listing[n].0) {
        assert parts == LabelledFiles(init) + [(CountryLabel(listing[n].0), listing[n].1)];
        assert parts[..|parts| - 1] == LabelledFiles(init);
      } else {
        assert parts == LabelledFiles(init);
      }
    }
  }

  /** A pair is among the labelled files exactly when some entry of the
      listing contributes it. */
  lemma {:induction false} LabelledFileMember(listing: seq<(string, Table)>, p: (string, Table))
    ensures p in LabelledFiles(listing) <==> exists k :: 0 <= k < |listing| && LabelledFile(listing[k]) == Some(p)
  {
    if listing != [] {
      var n := |listing| - 1;
      var init := listing[..n];
      var file := LabelledFile(listing[n]);
      var tail := if file.Some? then [file.value] else [];
      assert LabelledFiles(listing) == LabelledFiles(init) + tail;
      LabelledFileMember(init, p);
      if p in LabelledFiles(listing) {
        if p in tail {
          assert LabelledFile(listing[n]) == Some(p);
        } else {
          var k :| 0 <= k < n && LabelledFile(init[k]) == Some(p);
          assert LabelledFile(listing[k]) == Some(p);
        }
      }
      if exists k :: 0 <= k < |listing| && LabelledFile(listing[k]) == Some(p) {
        var k :| 0 <= k < |listing| && LabelledFile(listing[k]) == Some(p);
        if k < n {
          assert LabelledFile(init[k]) == Some(p);
          assert p in LabelledFiles(init);
        } else {
          assert k == n && file == Some(p);
          assert tail == [p];
        }
      }
    }
  }

  /** No labelled file carries a label that no matched entry has. */
  lemma LabelAbsent(listing: seq<(string, Table)>, name: string)
    requires forall i :: 0 <= i < |listing| && IsCleanFile(listing[i].0) ==> CountryLabel(listing[i].0) != name
    ensures forall j :: 0 <= j < |LabelledFiles(listing)| ==> LabelledFiles(listing)[j].0 != name
  {
    var parts := LabelledFiles(listing);
    forall j | 0 <= j < |parts|
      ensures parts[j].0 != name
    {
      assert parts[j] in parts;
      LabelledFileMember(listing, parts[j]);
      var k :| 0 <= k < |listing| && LabelledFile(listing[k]) == Some(parts[j]);
    }
  }

  /** A matched entry's pair is among the labelled files, at some position. */
  lemma LabelledFilePosition(listing: seq<(string, Table)>, k: int) returns (i: int)
    requires 0 <= k < |listing| && IsCleanFile(listing[k].0)
    ensures 0 <= i < |LabelledFiles(listing)| && LabelledFiles(listing)[i] == (CountryLabel(listing[k].0), listing[k].1)
  {
    var p := (CountryLabel(listing[k].0), listing[k].1);
    assert LabelledFile(listing[k]) == Some(p);
    LabelledFileMember(listing, p);
    i :| 0 <= i < |LabelledFiles(listing)| && LabelledFiles(listing)[i] == p;
  }

  /** load_all_countries: with no matched file the empty frame; otherwise
      every row of every matched file, tagged with that file's label, and
      nothing else, so the row count is the sum of the files' row counts. */
  lemma LoadedFrameSpec(listing: seq<(string, Table)>)
    ensures LoadedFrame(listing).None? <==> forall k :: 0 <= k < |listing| ==> !IsCleanFile(listing[k].0)
    ensures LoadedFrame(listing).Some? ==> |LoadedFrame(listing).value.rows| == CleanRowTotal(listing)
    ensures LoadedFrame(listing).Some? ==>
              forall x :: x in LoadedFrame(listing).value.rows <==>
                exists k :: 0 <= k < |listing| && IsCleanFile(listing[k].0) &&
                  x.country == CountryLabel(listing[k].0) && x.row in listing[k].1.rows
  {
    var parts := LabelledFiles(listing);
    LabelledFilesEmpty(listing);
    LabelledFilesRows(listing);
    if parts != [] {
      ConcatRows(parts);
      forall x ensures x in Concat(parts).rows <==>
                 exists k :: 0 <= k < |listing| && IsCleanFile(listing[k].0) &&
                   x.country == CountryLabel(listing[k].0) && x.row in listing[k].1.rows
      {
        LoadedRow(listing, x);
      }
    }
  }

  lemma LoadedRow(listing: seq<(string, Table)>, x: Tagged)
    requires LabelledFiles(listing) != []
    ensures x in Concat(LabelledFiles(listing)).rows <==>
              exists k :: 0 <= k < |listing| && IsCleanFile(listing[k].0) &&
                x.country == CountryLabel(listing[k].0) && x.row in listing[k].1.rows
  {
    var parts := LabelledFiles(listing);
    ConcatRows(parts);
    if x in Concat(parts).rows {
      var i :| 0 <= i < |parts| && x.country == parts[i].0 && x.row in parts[i].1.rows;
      var p := parts[i];
      assert p in parts;
      LabelledFileMember(listing, p);
      var k :| 0 <= k < |listing| && LabelledFile(listing[k]) == Some(p);
      assert IsCleanFile(listing[k].0) && x.country == CountryLabel(listing[k].0) && x.row in listing[k].1.rows;
    }
    if exists k :: 0 <= k < |listing| && IsCleanFile(listing[k].0) &&
         x.country == CountryLabel(listing[k].0) && x.row in listing[k].1.rows
    {
      var k :| 0 <= k < |listing| && IsCleanFile(listing[k].0) &&
         x.country == CountryLabel(listing[k].0) && x.row in listing[k].1.rows;
      var i := LabelledFilePosition(listing, k);
      assert x.country == parts[i].0 && x.row in parts[i].1.rows;
    }
  }

  /** The loop of load_all_countries: label each matched file, collect the
      tables, and stack them at the end. */
  method LoadAllCountries(listing: seq<(string, Table)>) returns (df: Option<CountryTable>)
    ensures df == LoadedFrame(listing)
  {
    var dfs: seq<(string, Table)> := [];
    var i := 0;
    while i < |listing|
      invariant 0 <= i <= |listing|
      invariant dfs == LabelledFiles(listing[..i])
    {
      var (name, table) := listing[i];
      assert listing[..i + 1][..i] == listing[..i];
      if IsCleanFile(name) {
        var country := CountryLabel(name);
        dfs := dfs + [(country, table)];
      }
      i := i + 1;
    }
    assert listing[..i] == listing;
    df := if dfs != [] then Some(Concat(dfs)) else None;
  }

  // ------------------------------ generate_summary ------------------------------

  /** df.groupby("Country")[metrics].agg(["mean", "median"]); the empty frame
      has no Country column, so grouping it raises KeyError. */
  function GenerateSummary(df: Option<CountryTable>, metrics: seq<string>): (r: Result<seq<GroupSummary>>)
    ensures df.None? ==> r == Failure(KeyError(CountryColumn))
    ensures df.Some? ==> (r.Failure? <==> exists m :: m in metrics && m !in df.value.columns)
    ensures r.Success? ==> Names(r.value) == Groups(df.value)
    ensures r.Success? ==> forall i :: 0 <= i < |r.value| ==>
              r.value[i] == SummarizeGroup(df.value, Groups(df.value)[i], metrics)
  {
    match df
    case None => Failure(KeyError(CountryColumn))
    case Some(t) => Summarize(t, metrics)
  }

  /** A matched file whose label no other matched file shares, and which has
      rows, has its own line in the summary of the loaded frame, with the
      mean and median of its own values. */
  lemma SummaryOfLoadedFile(listing: seq<(string, Table)>, metrics: seq<string>, k: int, j: int)
    requires GenerateSummary(LoadedFrame(listing), metrics).Success?
    requires 0 <= k < |listing| && IsCleanFile(listing[k].0) && |listing[k].1.rows| > 0 && 0 <= j < |metrics|
    requires forall i :: 0 <= i < |listing| && i != k && IsCleanFile(listing[i].0) ==>
               CountryLabel(listing[i].0) != CountryLabel(listing[k].0)
    ensures exists i :: 0 <= i < |GenerateSummary(LoadedFrame(listing), metrics).value| &&
              GenerateSummary(LoadedFrame(listing), metrics).value[i].country == CountryLabel(listing[k].0) &&
              GenerateSummary(LoadedFrame(listing), metrics).value[i].metrics[j] ==
                SummarizeMetric(ColumnValues(listing[k].1.rows, metrics[j]), metrics[j])
  {
    var parts := LabelledFiles(listing);
    var t := Concat(parts);
    var name := CountryLabel(listing[k].0);
    var kp := LabelledFilePosition(listing, k);
    var i := GroupIndex(parts, kp);
    LoadedGroup(listing, k, metrics[j]);
    assert GenerateSummary(LoadedFrame(listing), metrics) == Summarize(t, metrics);
    assert Summarize(t, metrics).value[i] == SummarizeGroup(t, name, metrics);
  }

  /** The summary has one line per label of a matched file with rows, in
      sorted order, and no other line. */
  lemma SummaryOfLoadedCountries(listing: seq<(string, Table)>, metrics: seq<string>)
    requires GenerateSummary(LoadedFrame(listing), metrics).Success?
    ensures StrictlySorted(Names(GenerateSummary(LoadedFrame(listing), metrics).value))
    ensures forall g :: g in Names(GenerateSummary(LoadedFrame(listing), metrics).value) <==>
              exists k :: 0 <= k < |listing| && IsCleanFile(listing[k].0) &&
                CountryLabel(listing[k].0) == g && |listing[k].1.rows| > 0
  {
    var parts := LabelledFiles(listing);
    GroupsOfConcat(parts);
    forall g ensures g in Groups(Concat(parts)) <==>
               exists k :: 0 <= k < |listing| && IsCleanFile(listing[k].0) &&
                 CountryLabel(listing[k].0) == g && |listing[k].1.rows| > 0
    {
      LoadedCountry(listing, g);
    }
  }

  lemma LoadedCountry(listing: seq<(string, Table)>, g: string)
    ensures (exists i :: 0 <= i < |LabelledFiles(listing)| && LabelledFiles(listing)[i].0 == g &&
               |LabelledFiles(listing)[i].1.rows| > 0) <==>
            exists k :: 0 <= k < |listing| && IsCleanFile(listing[k].0) &&
              CountryLabel(listing[k].0) == g && |listing[k].1.rows| > 0
  {
    var parts := LabelledFiles(listing);
    if exists i :: 0 <= i < |parts| && parts[i].0 == g && |parts[i].1.rows| > 0 {
      var i :| 0 <= i < |parts| && parts[i].0 == g && |parts[i].1.rows| > 0;
      assert parts[i] in parts;
      LabelledFileMember(listing, parts[i]);
    }
    if exists k :: 0 <= k < |listing| && IsCleanFile(listing[k].0) &&
         CountryLabel(listing[k].0) == g && |listing[k].1.rows| > 0
    {
      var k :| 0 <= k < |listing| && IsCleanFile(listing[k].0) &&
         CountryLabel(listing[k].0) == g && |listing[k].1.rows| > 0;
      var i := LabelledFilePosition(listing, k);
    }
  }

  /** Stacking one more tagged table appends its rows. */
  lemma ConcatSnoc(parts: seq<(string, Table)>, p: (string, Table))
    ensures Concat(parts + [p]).rows == Concat(parts).rows + Tag(p.0, p.1.rows)
  {
    assert (parts + [p])[..|parts|] == parts;
  }

  /** Loading one more entry adds its values to its label's group, if it
      matches, and leaves every other group as it was. */
  lemma LoadedGroupStep(listing: seq<(string, Table)>, name: string, metric: string)
    requires listing != []
    ensures var last := listing[|listing| - 1];
            IsCleanFile(last.0) && CountryLabel(last.0) == name ==>
              GroupValues(Concat(LabelledFiles(listing)).rows, name, metric) ==
                GroupValues(Concat(LabelledFiles(listing[..|listing| - 1])).rows, name, metric) + ColumnValues(last.1.rows, metric)
    ensures var last := listing[|listing| - 1];
            !(IsCleanFile(last.0) && CountryLabel(last.0) == name) ==>
              GroupValues(Concat(LabelledFiles(listing)).rows, name, metric) ==
                GroupValues(Concat(LabelledFiles(listing[..|listing| - 1])).rows, name, metric)
  {
    var n := |listing| - 1;
    var before := LabelledFiles(listing[..n]);
    if IsCleanFile(listing[n].0) {
      var last := (CountryLabel(listing[n].0), listing[n].1);
      assert LabelledFiles(listing) == before + [last];
      ConcatSnoc(before, last);
      GroupValuesConcat(Concat(before).rows, Tag(last.0, last.1.rows), name, metric);
      GroupValuesOfTag(last.0, last.1.rows, name, metric);
    } else {
      assert LabelledFiles(listing) == before;
    }
  }

  /** The Country group of a matched file whose label no other matched file
      carries holds exactly that file's present values. */
  lemma {:induction false} LoadedGroup(listing: seq<(string, Table)>, k: int, metric: string)
    requires 0 <= k < |listing| && IsCleanFile(listing[k].0)
    requires forall i :: 0 <= i < |listing| && i != k && IsCleanFile(listing[i].0) ==>
               CountryLabel(listing[i].0) != CountryLabel(listing[k].0)
    ensures GroupValues(Concat(LabelledFiles(listing)).rows, CountryLabel(listing[k].0), metric) ==
              ColumnValues(listing[k].1.rows, metric)
    decreases |listing|, 1
  {
    if k < |listing| - 1 {
      LoadedGroupEarlier(listing, k, metric);
    } else {
      LoadedGroupLast(listing, metric);
    }
  }

  /** The file is not the last entry: the last entry adds nothing to its
      group, and the rest of the listing is the smaller case. */
  lemma {:induction false} LoadedGroupEarlier(listing: seq<(string, Table)>, k: int, metric: string)
    requires 0 <= k < |listing| - 1 && IsCleanFile(listing[k].0)
    requires forall i :: 0 <= i < |listing| && i != k && IsCleanFile(listing[i].0) ==>
               CountryLabel(listing[i].0) != CountryLabel(listing[k].0)
    ensures GroupValues(Concat(LabelledFiles(listing)).rows, CountryLabel(listing[k].0), metric) ==
              ColumnValues(listing[k].1.rows, metric)
    decreases |listing|, 0
  {
    var n := |listing| - 1;
    var init := listing[..n];
    var name := CountryLabel(listing[k].0);
    assert k != n;
    if IsCleanFile(listing[n].0) {
      assert CountryLabel(listing[n].0) != name;
    }
    LoadedGroupStep(listing, name, metric);
    UniqueLabelInPrefix(listing, k);
    assert init[k] == listing[k];
    LoadedGroup(init, k, metric);
  }

  /** A label no other entry carries is still unique once the last entry
      is dropped. */
  lemma UniqueLabelInPrefix(listing: seq<(string, Table)>, k: int)
    requires 0 <= k < |listing| - 1
    requires forall i :: 0 <= i < |listing| && i != k && IsCleanFile(listing[i].0) ==>
               CountryLabel(listing[i].0) != CountryLabel(listing[k].0)
    ensures var init := listing[..|listing| - 1];
            forall i :: 0 <= i < |init| && i != k && IsCleanFile(init[i].0) ==>
              CountryLabel(init[i].0) != CountryLabel(init[k].0)
  {
    var init := listing[..|listing| - 1];
    forall i | 0 <= i < |init| && i != k && IsCleanFile(init[i].0)
      ensures CountryLabel(init[i].0) != CountryLabel(init[k].0)
    {
      assert init[i] == listing[i] && init[k] == listing[k];
    }
  }

  /** The file is the last entry: no earlier entry carries its label, so its
      group holds its own values only. */
  lemma LoadedGroupLast(listing: seq<(string, Table)>, metric: string)
    requires listing != [] && IsCleanFile(listing[|listing| - 1].0)
    requires forall i :: 0 <= i < |listing| - 1 && IsCleanFile(listing[i].0) ==>
               CountryLabel(listing[i].0) != CountryLabel(listing[|listing| - 1].0)
    ensures GroupValues(Concat(LabelledFiles(listing)).rows, CountryLabel(listing[|listing| - 1].0), metric) ==
              ColumnValues(listing[|listing| - 1].1.rows, metric)
  {
    var n := |listing| - 1;
    var init := listing[..n];
    var name := CountryLabel(listing[n].0);
    var values := ColumnValues(listing[n].1.rows, metric);
    calc {
      GroupValues(Concat(LabelledFiles(listing)).rows, name, metric);
      { LoadedGroupStep(listing, name, metric); }
      GroupValues(Concat(LabelledFiles(init)).rows, name, metric) + values;
      { assert forall i :: 0 <= i < n ==> init[i] == listing[i];
        LabelAbsent(init, name);
        GroupValuesAbsent(LabelledFiles(init), name, metric); }
      [] + values;
      values;
    }
  }

  // -------------------------- ComparisonManager.ranking --------------------------

  /** groupby("Country")[metric].mean(): one (country, mean) per group, in
      sorted group order. */
  function GroupMeans(t: CountryTable, metric: string): (r: seq<(string, Option<real>)>)
    ensures |r| == |Groups(t)|
    ensures forall i :: 0 <= i < |r| ==> r[i] == (Groups(t)[i], MeanOrNaN(GroupValues(t.rows, Groups(t)[i], metric)))
  {
    var groups := Groups(t);
    seq(|groups|, i requires 0 <= i < |groups| => (groups[i], MeanOrNaN(GroupValues(t.rows, groups[i], metric))))
  }

  /** The group means sorted by value, NaN last; KeyError for the missing
      Country column or a metric that is not a column. */
  function GroupRanking(df: Option<CountryTable>, metric: string, ascending: bool): (r: Result<seq<(string, Option<real>)>>)
    ensures r.Failure? <==> df.None? || metric !in df.value.columns
    ensures r.Success? ==> |r.value| == |Groups(df.value)| && SortedBy(r.value, MeanKey, ascending)
  {
    match df
    case None => Failure(KeyError(CountryColumn))
    case Some(t) =>
      if metric !in t.columns then Failure(KeyError(metric))
      else Success(SortBy(GroupMeans(t, metric), MeanKey, ascending))
  }

  /** The ranking has exactly one line per Country group, carrying that
      group's name and mean. */
  lemma GroupRankingMembers(t: CountryTable, metric: string, ascending: bool)
    requires metric in t.columns
    ensures forall e :: e in GroupRanking(Some(t), metric, ascending).value <==> IsGroupMean(t, metric, e)
  {
    var means := GroupMeans(t, metric);
    var r := SortBy(means, MeanKey, ascending);
    assert GroupRanking(Some(t), metric, ascending).value == r;
    GroupMeansMembers(t, metric);
    forall e ensures e in r <==> IsGroupMean(t, metric, e) {
      SortByMember(means, MeanKey, ascending, e);
    }
  }

  /** e is the line of one Country group: its name and its mean. */
  predicate IsGroupMean(t: CountryTable, metric: string, e: (string, Option<real>))
  {
    e.0 in Groups(t) && e.1 == MeanOrNaN(GroupValues(t.rows, e.0, metric))
  }

  lemma GroupMeansMembers(t: CountryTable, metric: string)
    ensures forall e :: e in GroupMeans(t, metric) <==> IsGroupMean(t, metric, e)
  {
    var means := GroupMeans(t, metric);
    forall e | IsGroupMean(t, metric, e)
      ensures e in means
    {
      var i :| 0 <= i < |Groups(t)| && Groups(t)[i] == e.0;
      assert means[i] == e;
    }
  }

  // --------------------------- run_statistical_tests ---------------------------

  function GroupSamples(t: CountryTable, metric: string): (r: seq<seq<real>>)
    ensures |r| == |Groups(t)|
    ensures forall i :: 0 <= i < |r| ==> r[i] == GroupValues(t.rows, Groups(t)[i], metric)
  {
    var groups := Groups(t);
    seq(|groups|, i requires 0 <= i < |groups| => GroupValues(t.rows, groups[i], metric))
  }

  /** The samples are the groups' present values when the metric is a
      column (every group then has it), none otherwise; with fewer than two
      no test runs. The empty frame raises KeyError on grouping. */
  function RunStatisticalTests(df: Option<CountryTable>, metric: string): (r: Result<TestOutcome>)
    ensures df.None? <==> r.Failure?
    ensures r.Success? ==> (r.value.NotEnoughData? <==> metric !in df.value.columns || |Groups(df.value)| < 2)
    ensures r.Success? && r.value.Tested? ==>
              |r.value.samples| == |Groups(df.value)| &&
              forall i :: 0 <= i < |r.value.samples| ==>
                r.value.samples[i] == GroupValues(df.value.rows, Groups(df.value)[i], metric)
  {
    match df
    case None => Failure(KeyError(CountryColumn))
    case Some(t) =>
      var samples := if metric in t.columns then GroupSamples(t, metric) else [];
      if |samples| < 2 then Success(NotEnoughData) else Success(Tested(samples))
  }

  // ------------------------------ the manager ------------------------------

  /** The dashboard's manager: the metrics and the frame loaded once. */
  class ComparisonManager {
    var metrics: seq<string>
    var dfAll: Option<CountryTable>

    /** `metrics or [...]`, then load_all_countries over the listing. */
    constructor (listing: seq<(string, Table)>, metricList: Option<seq<string>>)
      ensures metrics == if metricList.None? || metricList.value == [] then DefaultMetrics else metricList.value
      ensures dfAll == LoadedFrame(listing)
    {
      metrics := if metricList.None? || metricList.value == [] then DefaultMetrics else metricList.value;
      var loaded := LoadAllCountries(listing);
      dfAll := loaded;
    }

    function Summary(): Result<seq<GroupSummary>>
      reads this
    {
      GenerateSummary(dfAll, metrics)
    }

    function Ranking(metric: string, ascending: bool): Result<seq<(string, Option<real>)>>
      reads this
    {
      GroupRanking(dfAll, metric, ascending)
    }

    function Stats(metric: string): Result<TestOutcome>
      reads this
    {
      RunStatisticalTests(dfAll, metric)
    }
  }
}
