/**
 * The dataset builder of data_processing.py (`create_database`): a station
 * registry is built from the geometry features, then every yearly
 * measurement list from 2016 to 2025 is validated entry by entry and the
 * surviving entries are enriched with their station's name and coordinates.
 *
 * File reading and writing are not modelled: the parsed geometry features
 * and the parsed yearly lists are inputs, the record list is the output.
 * Python's `int(...)`, `float(...)` and `str(...)` on raw JSON values are
 * abstract conversions passed in as a `Coercions` value.
 */
module DataProcessing {
  import opened Wrappers

  /** A JSON value as `json.load` returns it. */
  datatype Json =
    | JNull
    | JBool(b: bool)
    | JNumber(n: real)
    | JString(s: string)
    | JArray(items: seq<Json>)
    | JObject(fields: map<string, Json>)

  /**
   * Python's conversions on a JSON value: `int(v)` and `float(v)` give None
   * where Python raises, `str(v)` always succeeds.
   */
  datatype Coercions = Coercions(
    toInt: Json -> Option<int>,
    toFloat: Json -> Option<real>,
    toStr: Json -> string)

  /** A feature of stazioni.geojson: `properties` id_amat, nome, inquinanti and `geometry.coordinates`. */
  datatype Feature = Feature(idAmat: Json, nome: string, inquinanti: seq<string>, coordinates: seq<real>)

  /** A registry entry: `{"id", "nome", "inquinanti", "coordinate"}`. */
  datatype Station = Station(id: int, nome: string, inquinanti: seq<string>, coordinate: seq<real>)

  type Registry = map<int, Station>

  /** One raw entry of a yearly measurement list. */
  type Entry = map<string, Json>

  /** One consolidated record, as appended to `dati`. */
  datatype Record = Record(
    anno: int,
    data: Json,
    idStazione: int,
    nomeStazione: string,
    coordinate: seq<real>,
    inquinante: string,
    valore: real)

  /** What makes `create_database` raise: an id_amat that `int()` rejects, or a yearly file that is absent. */
  datatype Fatal = UnparsableRegistryId(index: nat) | MissingYearFile(year: int)

  /** Why an entry was skipped with `continue`. */
  datatype SkipReason = MissingField | NonIntegerStationId | NonNumericValue | UnknownStation

  datatype EntryOutcome = Accepted(record: Record) | Skipped(reason: SkipReason)

  /** The years of `range(2016, 2026)`. */
  const FirstYear: int := 2016
  const EndYear: int := 2026

  const RequiredKeys: set<string> := {"stazione_id", "data", "inquinante", "valore"}

  function StationOf(id: int, f: Feature): Station
  {
    Station(id, f.nome, f.inquinanti, f.coordinates)
  }

  /** The registry after the feature loop: each feature in turn writes its coerced id. */
  function RegistryOf(fs: seq<Feature>, c: Coercions): Result<Registry, Fatal>
    decreases |fs|
  {
    if |fs| == 0 then Success(map[])
    else
      match RegistryOf(fs[..|fs| - 1], c)
      case Failure(e) => Failure(e)
      case Success(reg) =>
        match c.toInt(fs[|fs| - 1].idAmat)
        case None => Failure(UnparsableRegistryId(|fs| - 1))
        case Some(id) => Success(reg[id := StationOf(id, fs[|fs| - 1])])
  }

  /** A record is enriched from the registry: its station resolves and name and coordinates are copied from it. */
  ghost predicate Enriched(r: Record, reg: Registry)
  {
    && r.idStazione in reg
    && r.nomeStazione == reg[r.idStazione].nome
    && r.coordinate == reg[r.idStazione].coordinate
  }

  /** The validation pipeline for one entry of year `anno`, checks in the source's order. */
  function IngestEntry(m: Entry, anno: int, reg: Registry, c: Coercions): (o: EntryOutcome)
    ensures !(RequiredKeys <= m.Keys) ==> o == Skipped(MissingField)
    ensures RequiredKeys <= m.Keys && c.toInt(m["stazione_id"]).None? ==> o == Skipped(NonIntegerStationId)
    ensures RequiredKeys <= m.Keys && c.toInt(m["stazione_id"]).Some? && c.toFloat(m["valore"]).None?
            ==> o == Skipped(NonNumericValue)
    ensures RequiredKeys <= m.Keys && c.toInt(m["stazione_id"]).Some? && c.toFloat(m["valore"]).Some?
            && c.toInt(m["stazione_id"]).value !in reg
            ==> o == Skipped(UnknownStation)
    ensures RequiredKeys <= m.Keys && c.toInt(m["stazione_id"]).Some? && c.toFloat(m["valore"]).Some?
            && c.toInt(m["stazione_id"]).value in reg
            ==> o.Accepted?
    ensures o.Accepted? ==>
              && Enriched(o.record, reg)
              && o.record.anno == anno
              && RequiredKeys <= m.Keys
              && c.toInt(m["stazione_id"]) == Some(o.record.idStazione)
              && c.toFloat(m["valore"]) == Some(o.record.valore)
              && o.record.inquinante == c.toStr(m["inquinante"])
              && o.record.data == m["data"]
  {
    if !("stazione_id" in m && "data" in m && "inquinante" in m && "valore" in m) then
      Skipped(MissingField)
    else
      match (c.toInt(m["stazione_id"]), c.toFloat(m["valore"]))
      case (None, _) => Skipped(NonIntegerStationId)
      case (Some(_), None) => Skipped(NonNumericValue)
      case (Some(id), Some(valore)) =>
        if id !in reg then Skipped(UnknownStation)
        else Accepted(Record(anno, m["data"], id, reg[id].nome, reg[id].coordinate, c.toStr(m["inquinante"]), valore))
  }

  function Emitted(o: EntryOutcome): seq<Record>
  {
    if o.Accepted? then [o.record] else []
  }

  /** The records one yearly list contributes, in input order. */
  function YearRecords(es: seq<Entry>, anno: int, reg: Registry, c: Coercions): seq<Record>
    decreases |es|
  {
    if |es| == 0 then []
    else YearRecords(es[..|es| - 1], anno, reg, c) + Emitted(IngestEntry(es[|es| - 1], anno, reg, c))
  }

  /** The records of the years FirstYear .. end - 1, or the first year whose file is absent. */
  function Consolidated(reg: Registry, files: map<int, seq<Entry>>, c: Coercions, end: int): Result<seq<Record>, Fatal>
    requires FirstYear <= end
    decreases end - FirstYear
  {
    if end == FirstYear then Success([])
    else
      match Consolidated(reg, files, c, end - 1)
      case Failure(e) => Failure(e)
      case Success(d) =>
        if end - 1 in files then Success(d + YearRecords(files[end - 1], end - 1, reg, c))
        else Failure(MissingYearFile(end - 1))
  }

  /** What `create_database` writes to dati.json, or the error that stops it. */
  function Database(fs: seq<Feature>, files: map<int, seq<Entry>>, c: Coercions): Result<seq<Record>, Fatal>
  {
    match RegistryOf(fs, c)
    case Failure(e) => Failure(e)
    case Success(reg) => Consolidated(reg, files, c, EndYear)
  }

  /** The number of raw entries in the files of the years FirstYear .. end - 1. */
  function EntryCount(files: map<int, seq<Entry>>, end: int): nat
    requires FirstYear <= end
    decreases end - FirstYear
  {
    if end == FirstYear then 0
    else EntryCount(files, end - 1) + (if end - 1 in files then |files[end - 1]| else 0)
  }

  /** The records of one year, in order. */
  function OfYear(d: seq<Record>, y: int): seq<Record>
    decreases |d|
  {
    if |d| == 0 then []
    else OfYear(d[..|d| - 1], y) + (if d[|d| - 1].anno == y then [d[|d| - 1]] else [])
  }

  // ---------------------------------------------------------------------
  // The imperative builder
  // ---------------------------------------------------------------------

  /** The feature loop that fills `stazioni`. */
  method BuildRegistry(features: seq<Feature>, c: Coercions) returns (r: Result<Registry, Fatal>)
    ensures r == RegistryOf(features, c)
  {
    var stazioni: Registry := map[];
    var i := 0;
    while i < |features|
      invariant 0 <= i <= |features|
      invariant RegistryOf(features[..i], c) == Success(stazioni)
    {
      assert features[..i + 1][..i] == features[..i];
      var elem := features[i];
      match c.toInt(elem.idAmat)
      case None =>
        assert RegistryOf(features[..i + 1], c) == Failure(UnparsableRegistryId(i));
        RegistryFailurePersists(features, c, i + 1);
        return Failure(UnparsableRegistryId(i));
      case Some(idStazione) =>
        stazioni := stazioni[idStazione := StationOf(idStazione, elem)];
      i := i + 1;
    }
    assert features[..i] == features;
    return Success(stazioni);
  }

  /** Once a prefix of the features has failed, the whole feature list fails with the same error. */
  lemma {:induction false} RegistryFailurePersists(fs: seq<Feature>, c: Coercions, n: nat)
    requires n <= |fs| && RegistryOf(fs[..n], c).Failure?
    ensures RegistryOf(fs, c) == RegistryOf(fs[..n], c)
    decreases |fs| - n
  {
    if n < |fs| {
      assert fs[..n + 1][..n] == fs[..n];
      RegistryFailurePersists(fs, c, n + 1);
    } else {
      assert fs[..n] == fs;
    }
  }

  /** The entry loop for one year: appends that year's accepted records to `dati`. */
  method AppendYear(dati: seq<Record>, misurazioni: seq<Entry>, anno: int, stazioni: Registry, c: Coercions)
    returns (out: seq<Record>)
    ensures out == dati + YearRecords(misurazioni, anno, stazioni, c)
  {
    out := dati;
    var k := 0;
    while k < |misurazioni|
      invariant 0 <= k <= |misurazioni|
      invariant out == dati + YearRecords(misurazioni[..k], anno, stazioni, c)
    {
      var m := misurazioni[k];
      assert misurazioni[..k + 1][..k] == misurazioni[..k];
      k := k + 1;
      if !("stazione_id" in m && "data" in m && "inquinante" in m && "valore" in m) {
        continue;
      }
      var idStazione := c.toInt(m["stazione_id"]);
      var valore := c.toFloat(m["valore"]);
      if idStazione.None? || valore.None? {
        continue;
      }
      if idStazione.value !in stazioni {
        continue;
      }
      var record := Record(
        anno,
        m["data"],
        idStazione.value,
        stazioni[idStazione.value].nome,
        stazioni[idStazione.value].coordinate,
        c.toStr(m["inquinante"]),
        valore.value);
      out := out + [record];
    }
    assert misurazioni[..k] == misurazioni;
  }

  /** `create_database` without its file I/O: the registry, then the nested year and entry loops. */
  method CreateDatabase(features: seq<Feature>, files: map<int, seq<Entry>>, c: Coercions)
    returns (r: Result<seq<Record>, Fatal>)
    ensures r == Database(features, files, c)
  {
    var built := BuildRegistry(features, c);
    if built.Failure? {
      return Failure(built.error);
    }
    var stazioni := built.value;
    var dati: seq<Record> := [];
    for anno := FirstYear to EndYear
      invariant Consolidated(stazioni, files, c, anno) == Success(dati)
    {
      if anno !in files {
        return Failure(MissingYearFile(anno));
      }
      dati := AppendYear(dati, files[anno], anno, stazioni, c);
    }
    return Success(dati);
  }

  // ---------------------------------------------------------------------
  // The station registry
  // ---------------------------------------------------------------------

  /** The registry's keys are exactly the coerced ids, and every key maps to a station carrying that id. */
  lemma {:induction false} RegistryKeys(fs: seq<Feature>, c: Coercions, reg: Registry)
    requires RegistryOf(fs, c) == Success(reg)
    ensures forall k :: k in reg <==> exists i :: 0 <= i < |fs| && c.toInt(fs[i].idAmat) == Some(k)
    ensures forall k :: k in reg ==> reg[k].id == k
    decreases |fs|
  {
    if |fs| > 0 {
      var prefix := fs[..|fs| - 1];
      var prev := RegistryOf(prefix, c).value;
      RegistryKeys(prefix, c, prev);
      forall k
        ensures k in reg <==> exists i :: 0 <= i < |fs| && c.toInt(fs[i].idAmat) == Some(k)
      {
        if k in prev {
          var i :| 0 <= i < |prefix| && c.toInt(prefix[i].idAmat) == Some(k);
          assert fs[i] == prefix[i];
        }
        if exists i :: 0 <= i < |fs| && c.toInt(fs[i].idAmat) == Some(k) {
          var i :| 0 <= i < |fs| && c.toInt(fs[i].idAmat) == Some(k);
          if i < |fs| - 1 {
            assert prefix[i] == fs[i];
          }
        }
      }
    }
  }

  /** Last write wins: the station under an id is built from the last feature carrying that id. */
  lemma {:induction false} RegistryLastWriteWins(fs: seq<Feature>, c: Coercions, reg: Registry, i: nat)
    requires RegistryOf(fs, c) == Success(reg)
    requires i < |fs| && c.toInt(fs[i].idAmat).Some?
    requires forall j :: i < j < |fs| ==> c.toInt(fs[j].idAmat) != c.toInt(fs[i].idAmat)
    ensures c.toInt(fs[i].idAmat).value in reg
    ensures reg[c.toInt(fs[i].idAmat).value] == StationOf(c.toInt(fs[i].idAmat).value, fs[i])
    decreases |fs|
  {
    var prefix := fs[..|fs| - 1];
    if i < |fs| - 1 {
      var prev := RegistryOf(prefix, c).value;
      assert prefix[i] == fs[i];
      RegistryLastWriteWins(prefix, c, prev, i);
    }
  }

  /** The registry step fails exactly when some id_amat does not convert, and then at the first such feature. */
  lemma {:induction false} RegistryFailsOnFirstBadId(fs: seq<Feature>, c: Coercions)
    ensures RegistryOf(fs, c).Failure? <==> exists i :: 0 <= i < |fs| && c.toInt(fs[i].idAmat).None?
    ensures RegistryOf(fs, c).Failure? ==>
              && RegistryOf(fs, c).error.UnparsableRegistryId?
              && RegistryOf(fs, c).error.index < |fs|
              && c.toInt(fs[RegistryOf(fs, c).error.index].idAmat).None?
              && forall j :: 0 <= j < RegistryOf(fs, c).error.index ==> c.toInt(fs[j].idAmat).Some?
    decreases |fs|
  {
    if |fs| > 0 {
      var prefix := fs[..|fs| - 1];
      RegistryFailsOnFirstBadId(prefix, c);
      assert forall j :: 0 <= j < |prefix| ==> prefix[j] == fs[j];
    }
  }

  // ---------------------------------------------------------------------
  // One yearly list
  // ---------------------------------------------------------------------

  /** Processing a list in two parts gives the two parts' records in order: within a year, input order is kept. */
  lemma {:induction false} YearRecordsAppend(a: seq<Entry>, b: seq<Entry>, anno: int, reg: Registry, c: Coercions)
    ensures YearRecords(a + b, anno, reg, c) == YearRecords(a, anno, reg, c) + YearRecords(b, anno, reg, c)
    decreases |b|
  {
    if |b| == 0 {
      assert a + b == a;
    } else {
      assert (a + b)[..|a + b| - 1] == a + b[..|b| - 1];
      assert (a + b)[|a + b| - 1] == b[|b| - 1];
      YearRecordsAppend(a, b[..|b| - 1], anno, reg, c);
    }
  }

  /** A skipped entry, wherever it stands, leaves the output as if it were not there. */
  lemma SkippedEntryLeavesOutputUnchanged(a: seq<Entry>, m: Entry, b: seq<Entry>, anno: int, reg: Registry, c: Coercions)
    requires IngestEntry(m, anno, reg, c).Skipped?
    ensures YearRecords(a + [m] + b, anno, reg, c) == YearRecords(a + b, anno, reg, c)
  {
    YearRecordsAppend(a + [m], b, anno, reg, c);
    YearRecordsAppend(a, [m], anno, reg, c);
    YearRecordsAppend(a, b, anno, reg, c);
    assert YearRecords([m], anno, reg, c) == [] by {
      assert [m][..0] == [];
    }
  }

  /** Every record of a list comes from one of its entries, and there are at most as many records as entries. */
  lemma {:induction false} YearRecordsFromEntries(es: seq<Entry>, anno: int, reg: Registry, c: Coercions)
    ensures |YearRecords(es, anno, reg, c)| <= |es|
    ensures forall r :: r in YearRecords(es, anno, reg, c) ==>
              exists i :: 0 <= i < |es| && IngestEntry(es[i], anno, reg, c) == Accepted(r)
    decreases |es|
  {
    if |es| > 0 {
      var prefix := es[..|es| - 1];
      YearRecordsFromEntries(prefix, anno, reg, c);
      forall r | r in YearRecords(es, anno, reg, c)
        ensures exists i :: 0 <= i < |es| && IngestEntry(es[i], anno, reg, c) == Accepted(r)
      {
        if r in YearRecords(prefix, anno, reg, c) {
          var i :| 0 <= i < |prefix| && IngestEntry(prefix[i], anno, reg, c) == Accepted(r);
          assert es[i] == prefix[i];
        } else {
          assert IngestEntry(es[|es| - 1], anno, reg, c) == Accepted(r);
        }
      }
    }
  }

  /** Conversely, every entry the pipeline accepts contributes its record. */
  lemma {:induction false} AcceptedEntryEmitted(es: seq<Entry>, anno: int, reg: Registry, c: Coercions, i: nat)
    requires i < |es| && IngestEntry(es[i], anno, reg, c).Accepted?
    ensures IngestEntry(es[i], anno, reg, c).record in YearRecords(es, anno, reg, c)
    decreases |es|
  {
    if i < |es| - 1 {
      var prefix := es[..|es| - 1];
      assert prefix[i] == es[i];
      AcceptedEntryEmitted(prefix, anno, reg, c, i);
    }
  }

  /** Every record of a list is enriched from the registry and carries that list's year. */
  lemma YearRecordsEnriched(es: seq<Entry>, anno: int, reg: Registry, c: Coercions)
    ensures forall r :: r in YearRecords(es, anno, reg, c) ==> Enriched(r, reg) && r.anno == anno
  {
    YearRecordsFromEntries(es, anno, reg, c);
  }

  // ---------------------------------------------------------------------
  // The consolidated dataset
  // ---------------------------------------------------------------------

  lemma {:induction false} ConsolidatedEnriched(reg: Registry, files: map<int, seq<Entry>>, c: Coercions, end: int, d: seq<Record>)
    requires FirstYear <= end && Consolidated(reg, files, c, end) == Success(d)
    ensures forall r :: r in d ==> Enriched(r, reg) && FirstYear <= r.anno < end
    ensures |d| <= EntryCount(files, end)
    decreases end - FirstYear
  {
    if end > FirstYear {
      var prev := Consolidated(reg, files, c, end - 1).value;
      ConsolidatedEnriched(reg, files, c, end - 1, prev);
      YearRecordsEnriched(files[end - 1], end - 1, reg, c);
      YearRecordsFromEntries(files[end - 1], end - 1, reg, c);
    }
  }

  lemma {:induction false} ConsolidatedSorted(reg: Registry, files: map<int, seq<Entry>>, c: Coercions, end: int, d: seq<Record>)
    requires FirstYear <= end && Consolidated(reg, files, c, end) == Success(d)
    ensures forall i, j :: 0 <= i < j < |d| ==> d[i].anno <= d[j].anno
    decreases end - FirstYear
  {
    if end > FirstYear {
      var prev := Consolidated(reg, files, c, end - 1).value;
      var recs := YearRecords(files[end - 1], end - 1, reg, c);
      ConsolidatedSorted(reg, files, c, end - 1, prev);
      ConsolidatedEnriched(reg, files, c, end - 1, prev);
      YearRecordsEnriched(files[end - 1], end - 1, reg, c);
      assert d == prev + recs;
      forall i, j | 0 <= i < j < |d|
        ensures d[i].anno <= d[j].anno
      {
        if j >= |prev| {
          assert d[j] == recs[j - |prev|];
          assert d[j].anno == end - 1;
          if i < |prev| {
            assert d[i] == prev[i];
          } else {
            assert d[i] == recs[i - |prev|];
          }
        }
      }
    }
  }

  /**
   * No orphans and faithful enrichment: every record of the database names a
   * station of the registry and copies that station's name and coordinates.
   * Records have years in 2016..2025, grouped by year ascending, and there
   * are no more records than raw entries.
   */
  lemma DatabaseShape(fs: seq<Feature>, files: map<int, seq<Entry>>, c: Coercions, d: seq<Record>)
    requires Database(fs, files, c) == Success(d)
    ensures RegistryOf(fs, c).Success?
    ensures forall r :: r in d ==> Enriched(r, RegistryOf(fs, c).value)
    ensures forall r :: r in d ==> FirstYear <= r.anno < EndYear
    ensures forall i, j :: 0 <= i < j < |d| ==> d[i].anno <= d[j].anno
    ensures |d| <= EntryCount(files, EndYear)
  {
    ConsolidatedEnriched(RegistryOf(fs, c).value, files, c, EndYear, d);
    ConsolidatedSorted(RegistryOf(fs, c).value, files, c, EndYear, d);
  }

  /**
   * Entry contents never abort the run: the build fails only on the
   * registry or an absent yearly file.
   */
  lemma DatabaseFailsOnlyOnProvisioning(fs: seq<Feature>, files: map<int, seq<Entry>>, c: Coercions)
    ensures Database(fs, files, c).Success? <==>
              (forall i :: 0 <= i < |fs| ==> c.toInt(fs[i].idAmat).Some?)
              && (forall y :: FirstYear <= y < EndYear ==> y in files)
  {
    RegistryFailsOnFirstBadId(fs, c);
    if RegistryOf(fs, c).Success? {
      ConsolidatedSucceedsIff(RegistryOf(fs, c).value, files, c, EndYear);
    }
  }

  lemma {:induction false} ConsolidatedSucceedsIff(reg: Registry, files: map<int, seq<Entry>>, c: Coercions, end: int)
    requires FirstYear <= end
    ensures Consolidated(reg, files, c, end).Success? <==> forall y :: FirstYear <= y < end ==> y in files
    decreases end - FirstYear
  {
    if end > FirstYear {
      ConsolidatedSucceedsIff(reg, files, c, end - 1);
    }
  }

  lemma {:induction false} OfYearAppend(a: seq<Record>, b: seq<Record>, y: int)
    ensures OfYear(a + b, y) == OfYear(a, y) + OfYear(b, y)
    decreases |b|
  {
    if |b| == 0 {
      assert a + b == a;
    } else {
      assert (a + b)[..|a + b| - 1] == a + b[..|b| - 1];
      OfYearAppend(a, b[..|b| - 1], y);
    }
  }

  lemma {:induction false} OfYearAll(d: seq<Record>, y: int)
    requires forall r :: r in d ==> r.anno == y
    ensures OfYear(d, y) == d
    decreases |d|
  {
    if |d| > 0 {
      OfYearAll(d[..|d| - 1], y);
    }
  }

  lemma {:induction false} OfYearNone(d: seq<Record>, y: int)
    requires forall r :: r in d ==> r.anno != y
    ensures OfYear(d, y) == []
    decreases |d|
  {
    if |d| > 0 {
      OfYearNone(d[..|d| - 1], y);
    }
  }

  lemma {:induction false} ConsolidatedYearSlice(reg: Registry, files: map<int, seq<Entry>>, c: Coercions, end: int, d: seq<Record>, y: int)
    requires FirstYear <= end && Consolidated(reg, files, c, end) == Success(d)
    requires FirstYear <= y < end
    ensures y in files && OfYear(d, y) == YearRecords(files[y], y, reg, c)
    decreases end - FirstYear
  {
    var prev := Consolidated(reg, files, c, end - 1).value;
    var recs := YearRecords(files[end - 1], end - 1, reg, c);
    OfYearAppend(prev, recs, y);
    YearRecordsEnriched(files[end - 1], end - 1, reg, c);
    if y == end - 1 {
      ConsolidatedEnriched(reg, files, c, end - 1, prev);
      OfYearNone(prev, y);
      OfYearAll(recs, y);
    } else {
      ConsolidatedYearSlice(reg, files, c, end - 1, prev, y);
      OfYearNone(recs, y);
    }
  }

  /** The records of each year are exactly what that year's file contributes, in its order. */
  lemma DatabaseYearSlice(fs: seq<Feature>, files: map<int, seq<Entry>>, c: Coercions, d: seq<Record>, y: int)
    requires Database(fs, files, c) == Success(d)
    requires FirstYear <= y < EndYear
    ensures RegistryOf(fs, c).Success? && y in files
    ensures OfYear(d, y) == YearRecords(files[y], y, RegistryOf(fs, c).value, c)
  {
    ConsolidatedYearSlice(RegistryOf(fs, c).value, files, c, EndYear, d, y);
  }

  lemma {:induction false} OfYearIncluded(d: seq<Record>, y: int)
    ensures forall r :: r in OfYear(d, y) ==> r in d
    decreases |d|
  {
    if |d| > 0 {
      OfYearIncluded(d[..|d| - 1], y);
      assert d == d[..|d| - 1] + [d[|d| - 1]];
    }
  }

  /**
   * An entry of a year file that has all four keys, a station id that reads
   * as an integer and names a registered station, and a value that reads as
   * a number, reaches the built database.
   */
  lemma ValidEntryReachesDatabase(fs: seq<Feature>, files: map<int, seq<Entry>>, c: Coercions,
                                  d: seq<Record>, y: int, i: nat)
    requires Database(fs, files, c) == Success(d)
    requires FirstYear <= y < EndYear && y in files && i < |files[y]|
    requires RegistryOf(fs, c).Success?
    requires RequiredKeys <= files[y][i].Keys
    requires c.toInt(files[y][i]["stazione_id"]).Some? && c.toFloat(files[y][i]["valore"]).Some?
    requires c.toInt(files[y][i]["stazione_id"]).value in RegistryOf(fs, c).value
    ensures IngestEntry(files[y][i], y, RegistryOf(fs, c).value, c).Accepted?
    ensures IngestEntry(files[y][i], y, RegistryOf(fs, c).value, c).record in d
  {
    DatabaseYearSlice(fs, files, c, d, y);
    AcceptedEntryEmitted(files[y], y, RegistryOf(fs, c).value, c, i);
    OfYearIncluded(d, y);
  }
}
