/**
 * The download-target compiler: from a catalog dataset, a geography choice and an
 * output directory to the ordered list of (url, query parameters, file name) targets.
 */
module Helpers {
  import opened Wrappers
  import opened Text
  import opened Entities
  import CrossProduct
  import StateEnrollment

  /** The district value that marks a state-wide row. */
  const StateName := "State of Connecticut"

  /** The one dataset with a hand-written table of state-level targets. */
  const EnrollmentName := "Enrollment"

  /** The query keys that carry the district and the school. */
  const DistrictKey := "_district"
  const SchoolKey := "_school"

  /** Why compiling targets can fail before any target is produced. */
  datatype CompileError =
    | UnknownDataset(dataset: string)       // the catalog has no such dataset
    | UnknownGeography(geography: string)   // neither 'District' nor 'School'
    | MissingDistrict                       // a parameter set without a district key reaches the file-name step

  // ---------------------------------------------------------------- list filtering

  /** `a` is `b` with some elements left out, the rest in their original order. */
  ghost predicate IsSubseq<T>(a: seq<T>, b: seq<T>)
    decreases |b|
  {
    if |a| == 0 then true
    else if |b| == 0 then false
    else (a[0] == b[0] && IsSubseq(a[1..], b[1..])) || IsSubseq(a, b[1..])
  }

  /**
   * The filters whose name satisfies `keep`, in catalog order: every such filter as
   * often as it occurs, no other filter at all.
   */
  function FiltersWhere(fs: seq<Filter>, keep: string -> bool): (r: seq<Filter>)
    ensures IsSubseq(r, fs)
    ensures forall f :: f in r <==> f in fs && keep(f.name)
    ensures forall f :: multiset(r)[f] == (if keep(f.name) then multiset(fs)[f] else 0)
    decreases |fs|
  {
    if |fs| == 0 then []
    else
      var rest := FiltersWhere(fs[1..], keep);
      assert fs == [fs[0]] + fs[1..];
      if keep(fs[0].name) then [fs[0]] + rest else rest
  }

  /** A subsequence holds no element more often than the sequence it is taken from. */
  lemma {:induction false} SubseqMultiset<T>(a: seq<T>, b: seq<T>)
    requires IsSubseq(a, b)
    ensures multiset(a) <= multiset(b)
    decreases |b|
  {
    if |a| > 0 {
      assert b == [b[0]] + b[1..];
      if a[0] == b[0] && IsSubseq(a[1..], b[1..]) {
        SubseqMultiset(a[1..], b[1..]);
        assert a == [a[0]] + a[1..];
      } else {
        SubseqMultiset(a, b[1..]);
      }
    }
  }

  /**
   * `FiltersWhere` is the only subsequence of the filters that holds every kept filter as
   * often as the catalog does and no other filter.
   */
  lemma {:induction false} FiltersWhereUnique(fs: seq<Filter>, keep: string -> bool, r: seq<Filter>)
    requires IsSubseq(r, fs)
    requires forall f :: multiset(r)[f] == (if keep(f.name) then multiset(fs)[f] else 0)
    ensures r == FiltersWhere(fs, keep)
    decreases |fs|
  {
    if |fs| > 0 {
      var f := fs[0];
      var tail := fs[1..];
      assert fs == [f] + tail;
      if |r| > 0 && r[0] == f && IsSubseq(r[1..], tail) {
        assert r == [f] + r[1..];
        assert multiset(r)[f] > 0;
        forall g
          ensures multiset(r[1..])[g] == (if keep(g.name) then multiset(tail)[g] else 0)
        {
          assert multiset(r)[g] == multiset(r[1..])[g] + (if g == f then 1 else 0);
        }
        FiltersWhereUnique(tail, keep, r[1..]);
      } else {
        assert IsSubseq(r, tail);
        SubseqMultiset(r, tail);
        assert multiset(r)[f] <= multiset(tail)[f] < multiset(fs)[f];
        forall g
          ensures multiset(r)[g] == (if keep(g.name) then multiset(tail)[g] else 0)
        {
          if keep(g.name) {
            assert g != f;
          }
        }
        FiltersWhereUnique(tail, keep, r);
      }
    }
  }

  /** Filtering depends only on what `keep` says about the names that occur. */
  lemma {:induction false} FiltersWhereAgree(fs: seq<Filter>, k1: string -> bool, k2: string -> bool)
    requires forall f :: f in fs ==> k1(f.name) == k2(f.name)
    ensures FiltersWhere(fs, k1) == FiltersWhere(fs, k2)
    decreases |fs|
  {
    if |fs| > 0 {
      FiltersWhereAgree(fs[1..], k1, k2);
    }
  }

  /** The names of the filters whose name satisfies `keep`, in catalog order. */
  function NamesWhere(fs: seq<Filter>, keep: string -> bool): (r: seq<string>)
    ensures |r| <= |fs|
    ensures IsSubseq(r, NamesOf(fs))
    ensures forall x :: x in r ==> keep(x)
    ensures forall f :: f in fs ==> (f.name in r <==> keep(f.name))
    ensures r == NamesOf(FiltersWhere(fs, keep))
    decreases |fs|
  {
    if |fs| == 0 then []
    else
      var rest := NamesWhere(fs[1..], keep);
      assert NamesOf(fs)[1..] == NamesOf(fs[1..]);
      if keep(fs[0].name) then
        NamesOfCons(fs[0], FiltersWhere(fs[1..], keep));
        [fs[0].name] + rest
      else rest
  }

  /** The names of a filter in front of others: its name in front of theirs. */
  lemma NamesOfCons(f: Filter, fs: seq<Filter>)
    ensures NamesOf([f] + fs) == [f.name] + NamesOf(fs)
  {
    assert forall i :: 0 < i <= |fs| ==> ([f] + fs)[i] == fs[i - 1];
  }

  function NamesOf(fs: seq<Filter>): (r: seq<string>)
    ensures |r| == |fs| && forall i :: 0 <= i < |fs| ==> r[i] == fs[i].name
  {
    seq(|fs|, i requires 0 <= i < |fs| => fs[i].name)
  }

  function OptionsOf(fs: seq<Filter>): (r: seq<seq<string>>)
    ensures |r| == |fs| && forall i :: 0 <= i < |fs| ==> r[i] == fs[i].options
  {
    seq(|fs|, i requires 0 <= i < |fs| => fs[i].options)
  }

  function XpathsOf(fs: seq<Filter>): (r: seq<string>)
    ensures |r| == |fs| && forall i :: 0 <= i < |fs| ==> r[i] == fs[i].xpathId
  {
    seq(|fs|, i requires 0 <= i < |fs| => fs[i].xpathId)
  }

  // ---------------------------------------------------------------- catalog geographies

  predicate IsGeoName(name: string) {
    name == "District" || name == "School"
  }

  /**
   * For every catalog dataset, in catalog order, the names of its District and School
   * filters, in filter order.
   */
  function BuildCatalogGeoList(catalog: seq<CatalogEntry>): (r: seq<GeoEntry>)
    ensures |r| == |catalog|
    ensures forall i :: 0 <= i < |r| ==>
      && r[i].dataset == catalog[i].name
      && IsSubseq(r[i].geos, NamesOf(catalog[i].dataset.filters))
      && (forall g :: g in r[i].geos ==> IsGeoName(g))
      && (forall f :: f in catalog[i].dataset.filters && IsGeoName(f.name) ==> f.name in r[i].geos)
      && r[i].geos == NamesOf(FiltersWhere(catalog[i].dataset.filters, IsGeoName))
  {
    seq(|catalog|, i requires 0 <= i < |catalog| =>
      GeoEntry(catalog[i].name, NamesWhere(catalog[i].dataset.filters, IsGeoName)))
  }

  // ---------------------------------------------------------------- choosing the variables

  /** The filter names a geography leaves out of the cross product; `None` for an unknown geography. */
  function ExcludedVars(geography: string): (r: Option<seq<string>>)
    ensures geography == "District" <==> r == Some(["District", "School"])
    ensures geography == "School" <==> r == Some(["District"])
    ensures r.None? <==> geography != "District" && geography != "School"
  {
    if geography == "District" then Some(["District", "School"])
    else if geography == "School" then Some(["District"])
    else None
  }

  /** The test "not among the excluded names". */
  function NotIn(exclude: seq<string>): string -> bool {
    n => n !in exclude
  }

  /** The names of the filters that take part, in catalog order. */
  function Variables(fs: seq<Filter>, exclude: seq<string>): (r: seq<string>)
    ensures IsSubseq(r, NamesOf(fs))
    ensures forall x :: x in r ==> x !in exclude
    ensures forall f :: f in fs ==> (f.name in r <==> f.name !in exclude)
    ensures r == NamesOf(FiltersWhere(fs, NotIn(exclude)))
  {
    NamesWhere(fs, NotIn(exclude))
  }

  /** The filters whose name is among `variables`, in catalog order. */
  function Included(fs: seq<Filter>, variables: seq<string>): seq<Filter> {
    FiltersWhere(fs, n => n in variables)
  }

  /** Selecting by the variable list picks exactly the filters the geography does not exclude. */
  lemma IncludedAreNotExcluded(fs: seq<Filter>, exclude: seq<string>)
    ensures Included(fs, Variables(fs, exclude)) == FiltersWhere(fs, NotIn(exclude))
  {
    var vars := Variables(fs, exclude);
    FiltersWhereAgree(fs, n => n in vars, NotIn(exclude));
  }

  /** The query keys of the included filters, in catalog order. */
  function GetXpaths(fs: seq<Filter>, variables: seq<string>): (r: seq<string>)
    ensures |r| == |Included(fs, variables)|
    ensures forall j :: 0 <= j < |r| ==> r[j] == Included(fs, variables)[j].xpathId
  {
    XpathsOf(Included(fs, variables))
  }

  // ---------------------------------------------------------------- parameter sets

  /** The base query with every value list reduced to its first element. */
  function FirstValues(base: map<string, seq<string>>): (r: ParamSet)
    requires QueryWellFormed(base)
    ensures r.Keys == base.Keys
    ensures forall k :: k in base ==> r[k] == base[k][0]
  {
    map k | k in base :: base[k][0]
  }

  /**
   * Writes `vals[j]`, trailing whitespace removed, under `keys[j]`, left to right; a key
   * that occurs twice keeps the value of its last occurrence.
   */
  function Assign(m: ParamSet, keys: seq<string>, vals: seq<string>): (r: ParamSet)
    requires |keys| == |vals|
    ensures forall k :: k in r <==> k in m || k in keys
    ensures forall k :: k in m && k !in keys ==> r[k] == m[k]
    ensures forall j :: 0 <= j < |keys| && keys[j] !in keys[j + 1..] ==> r[keys[j]] == RStrip(vals[j])
    decreases |keys|
  {
    if |keys| == 0 then m
    else
      var m' := m[keys[0] := RStrip(vals[0])];
      var r := Assign(m', keys[1..], vals[1..]);
      AssignHead(m, keys, vals, r);
      r
  }

  /** The first key of `Assign`: its value survives unless a later key overwrites it. */
  lemma AssignHead(m: ParamSet, keys: seq<string>, vals: seq<string>, r: ParamSet)
    requires |keys| == |vals| && |keys| > 0
    requires var m' := m[keys[0] := RStrip(vals[0])];
      && (forall k :: k in r <==> k in m' || k in keys[1..])
      && (forall k :: k in m' && k !in keys[1..] ==> r[k] == m'[k])
      && (forall j :: 0 <= j < |keys[1..]| && keys[1..][j] !in keys[1..][j + 1..] ==> r[keys[1..][j]] == RStrip(vals[1..][j]))
    ensures forall k :: k in r <==> k in m || k in keys
    ensures forall k :: k in m && k !in keys ==> r[k] == m[k]
    ensures forall j :: 0 <= j < |keys| && keys[j] !in keys[j + 1..] ==> r[keys[j]] == RStrip(vals[j])
  {
    assert keys == [keys[0]] + keys[1..];
    forall j | 1 <= j < |keys| && keys[j] !in keys[j + 1..]
      ensures r[keys[j]] == RStrip(vals[j])
    {
      assert keys[1..][j - 1] == keys[j];
      assert keys[1..][j..] == keys[j + 1..];
      assert vals[1..][j - 1] == vals[j];
    }
  }

  /** The parameter set of one combination of options. */
  function ParamsFor(baseQs: map<string, seq<string>>, xpaths: seq<string>, combo: seq<string>): ParamSet
    requires QueryWellFormed(baseQs)
    requires |xpaths| == |combo|
  {
    Assign(FirstValues(baseQs), xpaths, combo)
  }

  /**
   * One parameter set per combination of the included filters' options, in row-major
   * order. Each holds the base query (first values) overlaid with the combination under
   * the included filters' query keys.
   */
  function BuildParamsList(ds: Dataset, baseQs: map<string, seq<string>>, variables: seq<string>): (r: seq<ParamSet>)
    requires QueryWellFormed(baseQs)
    ensures |r| == CrossProduct.Count(OptionsOf(Included(ds.filters, variables)))
    ensures forall i, k :: 0 <= i < |r| ==> (k in r[i] <==> k in baseQs || k in GetXpaths(ds.filters, variables))
    ensures forall i, k :: 0 <= i < |r| && k in baseQs && k !in GetXpaths(ds.filters, variables) ==> r[i][k] == baseQs[k][0]
  {
    var inc := Included(ds.filters, variables);
    var xpaths := GetXpaths(ds.filters, variables);
    var combos := CrossProduct.Product(OptionsOf(inc));
    seq(|combos|, i requires 0 <= i < |combos| => ParamsFor(baseQs, xpaths, combos[i]))
  }

  /**
   * Row-major order of the parameter sets: the set at the mixed-radix position of
   * option choice `d` holds, under the query key of the `j`-th included filter (when no
   * later included filter reuses that key), option `d[j]` of that filter with trailing
   * whitespace removed.
   */
  lemma ParamsRowMajor(ds: Dataset, baseQs: map<string, seq<string>>, variables: seq<string>, d: seq<nat>)
    requires QueryWellFormed(baseQs)
    requires CrossProduct.ValidChoice(OptionsOf(Included(ds.filters, variables)), d)
    ensures var opts := OptionsOf(Included(ds.filters, variables));
      var xpaths := GetXpaths(ds.filters, variables);
      var i := CrossProduct.RowMajorIndex(opts, d);
      var r := BuildParamsList(ds, baseQs, variables);
      && i < |r|
      && forall j :: 0 <= j < |xpaths| && xpaths[j] !in xpaths[j + 1..] ==> r[i][xpaths[j]] == RStrip(opts[j][d[j]])
  {
    var opts := OptionsOf(Included(ds.filters, variables));
    CrossProduct.ProductAt(opts, d);
  }

  /**
   * Every parameter set, not only those reached from a choice: the set at position `i`
   * holds, under the query key of the `j`-th included filter (when no later included
   * filter reuses that key), the `j`-th digit of `i`'s decoded choice of that filter's
   * options, trailing whitespace removed.
   */
  lemma ParamsAt(ds: Dataset, baseQs: map<string, seq<string>>, variables: seq<string>, i: nat)
    requires QueryWellFormed(baseQs)
    requires i < |BuildParamsList(ds, baseQs, variables)|
    ensures CrossProduct.ValidChoice(OptionsOf(Included(ds.filters, variables)), CrossProduct.Decode(OptionsOf(Included(ds.filters, variables)), i))
    ensures var opts := OptionsOf(Included(ds.filters, variables));
      var xpaths := GetXpaths(ds.filters, variables);
      var d := CrossProduct.Decode(opts, i);
      var r := BuildParamsList(ds, baseQs, variables);
      forall j :: 0 <= j < |xpaths| && xpaths[j] !in xpaths[j + 1..] ==> r[i][xpaths[j]] == RStrip(opts[j][d[j]])
  {
    var opts := OptionsOf(Included(ds.filters, variables));
    CrossProduct.DecodeCorrect(opts, i);
    ParamsRowMajor(ds, baseQs, variables, CrossProduct.Decode(opts, i));
  }

  /** An included filter without options yields no parameter sets at all, and no error. */
  lemma EmptyOptionsNoParams(ds: Dataset, baseQs: map<string, seq<string>>, variables: seq<string>, j: nat)
    requires QueryWellFormed(baseQs)
    requires j < |Included(ds.filters, variables)| && Included(ds.filters, variables)[j].options == []
    ensures BuildParamsList(ds, baseQs, variables) == []
  {
    CrossProduct.EmptyListEmptiesProduct(OptionsOf(Included(ds.filters, variables)), j);
  }

  // ---------------------------------------------------------------- state-wide copies

  /** A parameter set turned into its state-wide row: district forced to the state, school dropped. */
  function StateCopy(p: ParamSet): (r: ParamSet)
    ensures r.Keys == (p.Keys - {SchoolKey}) + {DistrictKey}
    ensures r[DistrictKey] == StateName
    ensures forall k :: k in p && k != DistrictKey && k != SchoolKey ==> r[k] == p[k]
  {
    (p - {SchoolKey})[DistrictKey := StateName]
  }

  /** No element occurs twice. */
  predicate Distinct<T(==)>(s: seq<T>) {
    forall a, b :: 0 <= a < b < |s| ==> s[a] != s[b]
  }

  /**
   * The loop of `_add_ct`: appends the state copy of each parameter set to `acc`
   * unless an equal copy is already there.
   */
  function CollectStateCopies(ps: seq<ParamSet>, acc: seq<ParamSet>): (r: seq<ParamSet>)
    requires Distinct(acc)
    ensures Distinct(r)
    ensures |acc| <= |r| <= |acc| + |ps|
    ensures r[..|acc|] == acc
    ensures forall c :: c in r ==> c in acc || exists i :: 0 <= i < |ps| && c == StateCopy(ps[i])
    ensures forall i :: 0 <= i < |ps| ==> StateCopy(ps[i]) in r
    ensures |ps| > 0 ==> |r| > 0
    decreases |ps|
  {
    if |ps| == 0 then acc
    else
      var c := StateCopy(ps[0]);
      var acc' := if c in acc then acc else acc + [c];
      var r := CollectStateCopies(ps[1..], acc');
      assert r[..|acc|] == acc' [..|acc|];
      assert forall i :: 1 <= i < |ps| ==> ps[i] == ps[1..][i - 1];
      assert c in acc' && acc' <= r;
      r
  }

  /**
   * `_add_ct`: the parameter sets unchanged, followed by their state copies with
   * repeats among the copies dropped (but not copies equal to an original).
   */
  function AddCt(ps: seq<ParamSet>): (r: seq<ParamSet>)
    ensures |ps| <= |r| <= 2 * |ps|
    ensures r[..|ps|] == ps
    ensures |ps| > 0 ==> |r| > |ps|
    ensures Distinct(r[|ps|..])
    ensures forall c :: c in r[|ps|..] ==> exists i :: 0 <= i < |ps| && c == StateCopy(ps[i])
    ensures forall i :: 0 <= i < |ps| ==> StateCopy(ps[i]) in r[|ps|..]
  {
    var copies := CollectStateCopies(ps, []);
    assert (ps + copies)[|ps|..] == copies;
    ps + copies
  }

  /** A state row already in the input is repeated by its own copy, so a target can occur twice. */
  lemma AddCtCanRepeat()
    ensures var p := map[DistrictKey := StateName];
      AddCt([p]) == [p, p]
  {
    var p := map[DistrictKey := StateName];
    assert StateCopy(p) == p;
  }

  // ---------------------------------------------------------------- file names

  /** The values named in the file: one per query key (empty when absent), then `ct` for a state row. */
  function FilenameParts(p: ParamSet, xpaths: seq<string>): (r: seq<string>)
    requires DistrictKey in p
    ensures |r| == |xpaths| + (if p[DistrictKey] == StateName then 1 else 0)
    ensures forall j :: 0 <= j < |xpaths| ==> r[j] == (if xpaths[j] in p then p[xpaths[j]] else "")
    ensures p[DistrictKey] == StateName ==> r[|xpaths|] == "ct"
  {
    var vals := seq(|xpaths|, j requires 0 <= j < |xpaths| => if xpaths[j] in p then p[xpaths[j]] else "");
    if p[DistrictKey] == StateName then vals + ["ct"] else vals
  }

  /** The unslugged file name: the dataset name, `__`, then the parts joined with `_`. */
  function FileStem(datasetName: string, p: ParamSet, xpaths: seq<string>): string
    requires DistrictKey in p
  {
    datasetName + "__" + JoinWith('_', FilenameParts(p, xpaths))
  }

  /** When no part holds an underscore, the parts can be read back from the stem. */
  lemma FileStemDecodes(datasetName: string, p: ParamSet, xpaths: seq<string>)
    requires DistrictKey in p
    requires |FilenameParts(p, xpaths)| > 0
    requires forall j :: 0 <= j < |FilenameParts(p, xpaths)| ==> '_' !in FilenameParts(p, xpaths)[j]
    ensures var stem := FileStem(datasetName, p, xpaths);
      && stem[..|datasetName| + 2] == datasetName + "__"
      && Split('_', stem[|datasetName| + 2..]) == FilenameParts(p, xpaths)
  {
    var parts := FilenameParts(p, xpaths);
    var stem := FileStem(datasetName, p, xpaths);
    assert stem[|datasetName| + 2..] == JoinWith('_', parts);
    SplitJoin('_', parts);
  }

  /** The absolute path a parameter set is saved to: the slugged stem plus `.csv`, in the output directory. */
  function TargetFilename(absDir: string, datasetName: string, p: ParamSet, xpaths: seq<string>, slug: string -> string): (r: string)
    requires DistrictKey in p
    ensures EndsWith(r, slug(FileStem(datasetName, p, xpaths)) + ".csv")
    ensures EndsWith(r, ".csv")
    ensures var base := slug(FileStem(datasetName, p, xpaths)) + ".csv";
      base[0] != '/' ==> r == DirPrefix(absDir) + base
    ensures var base := slug(FileStem(datasetName, p, xpaths)) + ".csv";
      base[0] == '/' ==> r == base
  {
    var base := slug(FileStem(datasetName, p, xpaths)) + ".csv";
    var r := PathJoin(absDir, base);
    assert r == r[..|r| - |base|] + r[|r| - |base|..];
    assert base[|base| - 4..] == ".csv";
    EndsWithTrans(r, base, ".csv");
    r
  }

  // ---------------------------------------------------------------- targets

  /**
   * One target per parameter set, in order, all sharing the request url; for the
   * Enrollment dataset the fixed state-level table follows.
   */
  function BuildUrlList(params: seq<ParamSet>, xpaths: seq<string>, url: string, absDir: string,
                        datasetName: string, slug: string -> string): (r: seq<Target>)
    requires forall i :: 0 <= i < |params| ==> DistrictKey in params[i]
    ensures |r| == |params| + (if datasetName == EnrollmentName then StateEnrollment.TableSize else 0)
    ensures forall i :: 0 <= i < |params| ==>
      && r[i].url == url
      && r[i].param == params[i]
      && r[i].filename == TargetFilename(absDir, datasetName, params[i], xpaths, slug)
    ensures datasetName == EnrollmentName ==> r[|params|..] == StateEnrollment.Targets(absDir)
  {
    var targets := seq(|params|, i requires 0 <= i < |params| =>
      Target(url, params[i], TargetFilename(absDir, datasetName, params[i], xpaths, slug)));
    if datasetName == EnrollmentName then
      var r := targets + StateEnrollment.Targets(absDir);
      assert r[|params|..] == StateEnrollment.Targets(absDir);
      r
    else targets
  }

  /** The catalog entry of a dataset name (the first one carrying it; names are unique in a well-formed catalog). */
  function Lookup(catalog: seq<CatalogEntry>, name: string): (r: Option<Dataset>)
    ensures r.None? <==> forall i :: 0 <= i < |catalog| ==> catalog[i].name != name
    ensures r.Some? ==> exists i :: 0 <= i < |catalog| && catalog[i] == CatalogEntry(name, r.value)
    decreases |catalog|
  {
    if |catalog| == 0 then None
    else if catalog[0].name == name then Some(catalog[0].dataset)
    else
      var r := Lookup(catalog[1..], name);
      assert forall i :: 1 <= i < |catalog| ==> catalog[i] == catalog[1..][i - 1];
      r
  }

  /** With distinct names, every catalog entry is found under its own name. */
  lemma {:induction false} LookupFindsEntry(catalog: seq<CatalogEntry>, i: nat)
    requires CatalogWellFormed(catalog)
    requires i < |catalog|
    ensures Lookup(catalog, catalog[i].name) == Some(catalog[i].dataset)
    decreases i
  {
    if i > 0 {
      assert catalog[0].name != catalog[i].name;
      assert catalog[1..][i - 1] == catalog[i];
      LookupFindsEntry(catalog[1..], i - 1);
    }
  }

  /** The parameter sets of a dataset before file names are attached. */
  function CompiledParams(dataset: string, ds: Dataset, exclude: seq<string>): seq<ParamSet>
    requires QueryWellFormed(ds.baseQuery)
  {
    var params := BuildParamsList(ds, ds.baseQuery, Variables(ds.filters, exclude));
    if dataset != EnrollmentName then AddCt(params) else params
  }

  /**
   * For Enrollment the compiled sets are the cross product alone; for every other
   * dataset they are the cross product unchanged, followed by exactly its distinct
   * state copies, at least one when there is a set at all.
   */
  lemma CompiledParamsShape(dataset: string, ds: Dataset, exclude: seq<string>)
    requires QueryWellFormed(ds.baseQuery)
    ensures var params := BuildParamsList(ds, ds.baseQuery, Variables(ds.filters, exclude));
      var r := CompiledParams(dataset, ds, exclude);
      && (dataset == EnrollmentName ==> r == params)
      && (dataset != EnrollmentName ==>
            && |params| <= |r| && r[..|params|] == params
            && (|params| > 0 ==> |r| > |params|)
            && Distinct(r[|params|..])
            && (forall i :: 0 <= i < |params| ==> StateCopy(params[i]) in r[|params|..])
            && (forall c :: c in r[|params|..] ==> exists i :: 0 <= i < |params| && c == StateCopy(params[i])))
  {
  }

  /**
   * The exclusion list compilation goes on with. An unknown geography leaves it unbound,
   * which fails only once a filter name is compared against it: a dataset without
   * filters compiles anyway, and then the list is never consulted.
   */
  function ExclusionFor(geography: string, fs: seq<Filter>): (r: Option<seq<string>>)
    ensures r.None? <==> ExcludedVars(geography).None? && |fs| > 0
    ensures ExcludedVars(geography).Some? ==> r == ExcludedVars(geography)
  {
    match ExcludedVars(geography)
    case Some(exclude) => Some(exclude)
    case None => if |fs| == 0 then Some([]) else None
  }

  /**
   * `_setup_download_targets`: look the dataset up, choose the variables for the
   * geography, build the parameter sets, add state copies unless the dataset is
   * Enrollment, and attach urls and file names.
   */
  function SetupDownloadTargets(catalog: seq<CatalogEntry>, dataset: string, absDir: string,
                                geography: string, slug: string -> string): (r: Result<seq<Target>, CompileError>)
    requires CatalogWellFormed(catalog)
    ensures Lookup(catalog, dataset).None? <==> r == Err(UnknownDataset(dataset))
    ensures Lookup(catalog, dataset).Some? ==>
      (r == Err(UnknownGeography(geography)) <==> ExcludedVars(geography).None? && |Lookup(catalog, dataset).value.filters| > 0)
    ensures r.Ok? ==> && Lookup(catalog, dataset).Some?
                      && (geography == "District" || geography == "School" || Lookup(catalog, dataset).value.filters == [])
  {
    match Lookup(catalog, dataset)
    case None => Err(UnknownDataset(dataset))
    case Some(ds) =>
      LookupWellFormed(catalog, dataset);
      match ExclusionFor(geography, ds.filters)
      case None => Err(UnknownGeography(geography))
      case Some(exclude) =>
        var vars := Variables(ds.filters, exclude);
        var params := CompiledParams(dataset, ds, exclude);
        if forall i :: 0 <= i < |params| ==> DistrictKey in params[i] then
          Ok(BuildUrlList(params, GetXpaths(ds.filters, vars), ds.requestUrl, absDir, dataset, slug))
        else Err(MissingDistrict)
  }

  /** A dataset found in a well-formed catalog has a well-formed base query. */
  lemma LookupWellFormed(catalog: seq<CatalogEntry>, name: string)
    requires CatalogWellFormed(catalog)
    requires Lookup(catalog, name).Some?
    ensures QueryWellFormed(Lookup(catalog, name).value.baseQuery)
  {
  }

  /**
   * Compilation succeeds exactly when the dataset exists, the geography is known and
   * every parameter set has a district key; the targets are then one per parameter set,
   * the parameter sets numbering the product of the option counts of the filters the
   * geography keeps, between one and two times that with state copies, and exactly that
   * plus the fixed table for Enrollment.
   */
  lemma SetupOutcome(catalog: seq<CatalogEntry>, dataset: string, absDir: string, geography: string, slug: string -> string)
    requires CatalogWellFormed(catalog)
    requires Lookup(catalog, dataset).Some?
    requires ExclusionFor(geography, Lookup(catalog, dataset).value.filters).Some?
    ensures var ds := Lookup(catalog, dataset).value;
      var exclude := ExclusionFor(geography, ds.filters).value;
      var params := CompiledParams(dataset, ds, exclude);
      var n := CrossProduct.Count(OptionsOf(FiltersWhere(ds.filters, NotIn(exclude))));
      var r := SetupDownloadTargets(catalog, dataset, absDir, geography, slug);
      && (r.Ok? <==> forall i :: 0 <= i < |params| ==> DistrictKey in params[i])
      && (r.Err? ==> r.error == MissingDistrict)
      && (r.Ok? && dataset == EnrollmentName ==> |r.value| == n + StateEnrollment.TableSize)
      && (r.Ok? && dataset != EnrollmentName ==> n <= |r.value| <= 2 * n)
      && (r.Ok? && dataset != EnrollmentName && n > 0 ==> |r.value| > n)
  {
    var ds := Lookup(catalog, dataset).value;
    var exclude := ExclusionFor(geography, ds.filters).value;
    LookupWellFormed(catalog, dataset);
    IncludedAreNotExcluded(ds.filters, exclude);
  }

  /**
   * Without filters the geography is never consulted: an unknown one compiles to the
   * same targets as `District`.
   */
  lemma NoFiltersGeographyIgnored(catalog: seq<CatalogEntry>, dataset: string, absDir: string,
                                  geography: string, slug: string -> string)
    requires CatalogWellFormed(catalog)
    requires Lookup(catalog, dataset).Some? && Lookup(catalog, dataset).value.filters == []
    ensures SetupDownloadTargets(catalog, dataset, absDir, geography, slug)
         == SetupDownloadTargets(catalog, dataset, absDir, "District", slug)
  {
    var ds := Lookup(catalog, dataset).value;
    LookupWellFormed(catalog, dataset);
    var e1 := ExclusionFor(geography, ds.filters).value;
    var e2 := ExclusionFor("District", ds.filters).value;
    assert Variables(ds.filters, e1) == [] == Variables(ds.filters, e2);
  }

  /** A dataset whose base query names a district never fails for a missing district. */
  lemma DistrictInBaseQuery(dataset: string, ds: Dataset, exclude: seq<string>)
    requires QueryWellFormed(ds.baseQuery)
    requires DistrictKey in ds.baseQuery
    ensures forall i :: 0 <= i < |CompiledParams(dataset, ds, exclude)| ==> DistrictKey in CompiledParams(dataset, ds, exclude)[i]
  {
    var params := BuildParamsList(ds, ds.baseQuery, Variables(ds.filters, exclude));
    assert forall i :: 0 <= i < |params| ==> DistrictKey in params[i];
    if dataset != EnrollmentName {
      AddCtKeepsDistrict(params);
      assert CompiledParams(dataset, ds, exclude) == AddCt(params);
    } else {
      assert CompiledParams(dataset, ds, exclude) == params;
    }
  }

  /** Adding state copies keeps every parameter set supplied with a district. */
  lemma AddCtKeepsDistrict(params: seq<ParamSet>)
    requires forall i :: 0 <= i < |params| ==> DistrictKey in params[i]
    ensures forall i :: 0 <= i < |AddCt(params)| ==> DistrictKey in AddCt(params)[i]
  {
    var r := AddCt(params);
    forall i | 0 <= i < |r|
      ensures DistrictKey in r[i]
    {
      if i < |params| {
        assert r[i] == r[..|params|][i];
      } else {
        assert r[i] == r[|params|..][i - |params|];
        assert r[i] in r[|params|..];
      }
    }
  }
}
