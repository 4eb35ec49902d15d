/**
 * Loading the consolidated dataset into the dashboard's frame (app.py
 * `load_data`) and the start-up sequence around it: build dati.json when it
 * is absent, load it, and on an empty frame rebuild once and reload, halting
 * if the frame is still empty.
 *
 * dati.json is modelled by its parsed content (None while the file is
 * absent); `pd.to_datetime(..., errors="coerce")` is an abstract parameter
 * `toDate` that gives None for a date it cannot read.
 */
module Loading {
  import opened Wrappers
  import DP = DataProcessing

  /** Nanoseconds since the epoch, pandas' representation of a date. */
  type Timestamp = int

  /** One object of dati.json after `json.load`; the file format allows a null `valore`. */
  datatype StoredRow = StoredRow(
    anno: int,
    data: DP.Json,
    idStazione: int,
    nomeStazione: string,
    coordinate: seq<real>,
    inquinante: string,
    valore: Option<real>)

  /** One row of the dashboard's frame: the date parsed (NaT as None), the value present. */
  datatype Row = Row(
    anno: int,
    data: Option<Timestamp>,
    idStazione: int,
    nomeStazione: string,
    coordinate: seq<real>,
    inquinante: string,
    valore: real)

  /** `json.dump` of the built records. */
  function Dump(d: seq<DP.Record>): (stored: seq<StoredRow>)
    ensures |stored| == |d|
    ensures forall i :: 0 <= i < |d| ==> stored[i].valore == Some(d[i].valore)
  {
    seq(|d|, i requires 0 <= i < |d| =>
      StoredRow(d[i].anno, d[i].data, d[i].idStazione, d[i].nomeStazione, d[i].coordinate, d[i].inquinante, Some(d[i].valore)))
  }

  function RowOf(s: StoredRow, toDate: DP.Json -> Option<Timestamp>): Row
    requires s.valore.Some?
  {
    Row(s.anno, toDate(s.data), s.idStazione, s.nomeStazione, s.coordinate, s.inquinante, s.valore.value)
  }

  /**
   * The frame of a non-empty file: the date column converted and the rows
   * with a null value dropped (`dropna(subset=["valore"])`), order kept.
   */
  function Frame(stored: seq<StoredRow>, toDate: DP.Json -> Option<Timestamp>): (df: seq<Row>)
    ensures |df| <= |stored|
    ensures forall x :: x in df <==> exists s :: s in stored && s.valore.Some? && x == RowOf(s, toDate)
    decreases |stored|
  {
    if |stored| == 0 then []
    else
      var last := stored[|stored| - 1];
      assert forall s :: s in stored <==> s in stored[..|stored| - 1] || s == last by {
        assert stored == stored[..|stored| - 1] + [last];
      }
      Frame(stored[..|stored| - 1], toDate) + (if last.valore.Some? then [RowOf(last, toDate)] else [])
  }

  /** Loading a file with one more object appends its row exactly when its value is present. */
  lemma FrameSnoc(stored: seq<StoredRow>, s: StoredRow, toDate: DP.Json -> Option<Timestamp>)
    ensures Frame(stored + [s], toDate) == Frame(stored, toDate) + (if s.valore.Some? then [RowOf(s, toDate)] else [])
  {
    assert (stored + [s])[..|stored + [s]| - 1] == stored;
  }

  /** `dropna` keeps file order: loading distributes over concatenation, so every kept row appears once per occurrence. */
  lemma {:induction false} FrameAppend(a: seq<StoredRow>, b: seq<StoredRow>, toDate: DP.Json -> Option<Timestamp>)
    ensures Frame(a + b, toDate) == Frame(a, toDate) + Frame(b, toDate)
    decreases |b|
  {
    if |b| == 0 {
      assert a + b == a;
    } else {
      var b', last := b[..|b| - 1], b[|b| - 1];
      var tail := if last.valore.Some? then [RowOf(last, toDate)] else [];
      assert b == b' + [last];
      assert a + b == (a + b') + [last];
      calc {
        Frame(a + b, toDate);
        Frame((a + b') + [last], toDate);
        { FrameSnoc(a + b', last, toDate); }
        Frame(a + b', toDate) + tail;
        { FrameAppend(a, b', toDate); }
        (Frame(a, toDate) + Frame(b', toDate)) + tail;
        Frame(a, toDate) + (Frame(b', toDate) + tail);
        { FrameSnoc(b', last, toDate); }
        Frame(a, toDate) + Frame(b' + [last], toDate);
        Frame(a, toDate) + Frame(b, toDate);
      }
    }
  }

  /** Nothing a fresh build writes is dropped on loading: the frame has one row per record, fields copied. */
  lemma {:induction false} FrameOfDump(d: seq<DP.Record>, toDate: DP.Json -> Option<Timestamp>)
    ensures |Frame(Dump(d), toDate)| == |d|
    ensures forall i :: 0 <= i < |d| ==>
              Frame(Dump(d), toDate)[i]
              == Row(d[i].anno, toDate(d[i].data), d[i].idStazione, d[i].nomeStazione, d[i].coordinate, d[i].inquinante, d[i].valore)
    decreases |d|
  {
    if |d| > 0 {
      var prefix := d[..|d| - 1];
      FrameOfDump(prefix, toDate);
      assert Dump(d)[..|d| - 1] == Dump(prefix);
    }
  }

  /** Why `load_data` raises. */
  datatype LoadError = MissingDataColumn

  /** `load_data` with a file holding an empty list read as an empty frame, so that it reaches the rebuild-on-empty path. */
  function ReadFrame(file: Option<seq<StoredRow>>, toDate: DP.Json -> Option<Timestamp>): (df: seq<Row>)
    ensures file.None? ==> df == []
    ensures file.Some? ==> df == Frame(file.value, toDate)
    ensures df == [] <==> file.None? || forall s :: s in file.value ==> s.valore.None?
  {
    if file.None? then [] else
      var df := Frame(file.value, toDate);
      assert df != [] ==> df[0] in df;
      forall s | s in file.value && s.valore.Some?
        ensures df != []
      {
        assert RowOf(s, toDate) in df;
      }
      df
  }

  /**
   * `load_data` as written: an absent file is caught and gives an empty
   * frame; a file holding an empty list gives `pd.DataFrame([])`, which has
   * no "data" column, so `df["data"]` raises KeyError, which is not caught.
   * On every other file it agrees with ReadFrame.
   */
  function ReadFrameAsWritten(file: Option<seq<StoredRow>>, toDate: DP.Json -> Option<Timestamp>): (r: Result<seq<Row>, LoadError>)
    ensures r.Failure? <==> file == Some([])
    ensures r.Success? ==> r.value == ReadFrame(file, toDate)
  {
    match file
    case None => Success([])
    case Some(stored) =>
      if stored == [] then Failure(MissingDataColumn) else Success(Frame(stored, toDate))
  }

  datatype Crash = DatabaseFailed(fatal: DP.Fatal) | LoadFailed(error: LoadError)

  /** What the start-up sequence ends in: a frame with rows, `st.stop()`, or an uncaught exception. */
  datatype Startup = Ready(df: seq<Row>) | Halted | Crashed(crash: Crash)

  /** dati.json after the check at app.py:12-13: the built database if the file was absent, else unchanged. */
  function FileAfterCheck(file: Option<seq<StoredRow>>, built: Result<seq<DP.Record>, DP.Fatal>): Option<seq<StoredRow>>
    requires file.None? ==> built.Success?
  {
    if file.None? then Some(Dump(built.value)) else file
  }

  /** The first frame of the start-up: the memo when one is held, else a read of dati.json after the check at app.py:12-13. */
  function FirstLoad(
    file: Option<seq<StoredRow>>, cache: Option<seq<Row>>,
    built: Result<seq<DP.Record>, DP.Fatal>, toDate: DP.Json -> Option<Timestamp>): seq<Row>
    requires file.Some? || built.Success?
  {
    if cache.Some? then cache.value else ReadFrame(FileAfterCheck(file, built), toDate)
  }

  /** The same first frame as `load_data` gives it as written. */
  function FirstLoadAsWritten(
    file: Option<seq<StoredRow>>, cache: Option<seq<Row>>,
    built: Result<seq<DP.Record>, DP.Fatal>, toDate: DP.Json -> Option<Timestamp>): Result<seq<Row>, LoadError>
    requires file.Some? || built.Success?
  {
    if cache.Some? then Success(cache.value) else ReadFrameAsWritten(FileAfterCheck(file, built), toDate)
  }

  /**
   * The start-up sequence as written, from dati.json `file`, the frame that
   * `st.cache_data` already holds for `load_data` (if any) and the result
   * `built` of `create_database`. The reload after the rebuild is served from
   * the cache, so it returns the same empty frame.
   */
  function StartupAsWrittenOf(
    file: Option<seq<StoredRow>>, cache: Option<seq<Row>>,
    built: Result<seq<DP.Record>, DP.Fatal>, toDate: DP.Json -> Option<Timestamp>): (o: Startup)
    ensures o.Ready? ==> o.df != []
    ensures o.Ready? ==> file.Some? || built.Success?
    ensures o.Ready? ==> FirstLoadAsWritten(file, cache, built, toDate) == Success(o.df)
    ensures o.Ready? ==> cache.Some? ==> o.df == cache.value
    ensures (file.Some? || built.Success?) && FirstLoadAsWritten(file, cache, built, toDate).Success?
            && FirstLoadAsWritten(file, cache, built, toDate).value != []
            ==> o == Ready(FirstLoadAsWritten(file, cache, built, toDate).value)
    ensures (file.Some? || built.Success?) && FirstLoadAsWritten(file, cache, built, toDate).Failure?
            ==> o == Crashed(LoadFailed(FirstLoadAsWritten(file, cache, built, toDate).error))
    ensures o.Halted? <==> built.Success? && FirstLoadAsWritten(file, cache, built, toDate) == Success([])
    ensures built.Failure? && (file.None? || FirstLoadAsWritten(file, cache, built, toDate) == Success([]))
            ==> o == Crashed(DatabaseFailed(built.error))
  {
    if file.None? && built.Failure? then Crashed(DatabaseFailed(built.error))
    else
      var first := FirstLoadAsWritten(file, cache, built, toDate);
      match first
      case Failure(e) => Crashed(LoadFailed(e))
      case Success(df) =>
        if df != [] then Ready(df)
        else if built.Failure? then Crashed(DatabaseFailed(built.error))
        else Halted
  }

  /**
   * The start-up sequence with the cache cleared after the rebuild (and the
   * empty list read as an empty frame): the reload reads the rebuilt file.
   */
  function StartupOf(
    file: Option<seq<StoredRow>>, cache: Option<seq<Row>>,
    built: Result<seq<DP.Record>, DP.Fatal>, toDate: DP.Json -> Option<Timestamp>): (o: Startup)
    ensures o.Ready? ==> o.df != []
    ensures o.Ready? ==> file.Some? || built.Success?
    ensures o.Ready? && FirstLoad(file, cache, built, toDate) != [] ==> o.df == FirstLoad(file, cache, built, toDate)
    ensures o.Ready? && FirstLoad(file, cache, built, toDate) == [] ==>
              built.Success? && o.df == Frame(Dump(built.value), toDate)
    ensures (file.Some? || built.Success?) && FirstLoad(file, cache, built, toDate) != [] ==> o.Ready?
    ensures o.Halted? ==> built == Success([])
    ensures o.Crashed? ==> built.Failure? && o.crash == DatabaseFailed(built.error)
  {
    if file.None? && built.Failure? then Crashed(DatabaseFailed(built.error))
    else
      var first := FirstLoad(file, cache, built, toDate);
      if first != [] then Ready(first)
      else if built.Failure? then Crashed(DatabaseFailed(built.error))
      else
        var second := ReadFrame(Some(Dump(built.value)), toDate);
        FrameOfDump(built.value, toDate);
        if second != [] then Ready(second) else Halted
  }

  /** With the cache cleared, a rebuild that yields records always ends in a ready frame. */
  lemma StartupRecovers(
    file: Option<seq<StoredRow>>, cache: Option<seq<Row>>,
    d: seq<DP.Record>, toDate: DP.Json -> Option<Timestamp>)
    requires d != []
    ensures StartupOf(file, cache, Success(d), toDate).Ready?
  {
    FrameOfDump(d, toDate);
    if file.None? {
      FrameOfDump(d, toDate);
      assert Dump(d)[0].valore.Some?;
    }
  }

  /** A dati.json holding one row with a null value. */
  function NullValueFile(): Option<seq<StoredRow>>
  {
    Some([StoredRow(2020, DP.JString("2020-01-01"), 1, "A", [9.0, 45.0], "NO2", None)])
  }

  /**
   * As written, a first load that comes out empty is never recovered: with
   * a dati.json whose values are all null and source files that build a
   * non-empty database, the app halts, while clearing the cache after the
   * rebuild gives a ready frame.
   */
  lemma CacheDefeatsRebuild(d: seq<DP.Record>, toDate: DP.Json -> Option<Timestamp>)
    requires d != []
    ensures StartupAsWrittenOf(NullValueFile(), None, Success(d), toDate) == Halted
    ensures StartupOf(NullValueFile(), None, Success(d), toDate).Ready?
  {
    StartupRecovers(NullValueFile(), None, d, toDate);
  }

  /**
   * As written, a dati.json holding an empty list makes `load_data` raise,
   * whatever the rebuild would give; read as an empty frame, a rebuild with
   * records recovers.
   */
  lemma EmptyFileCrashes(d: seq<DP.Record>, toDate: DP.Json -> Option<Timestamp>)
    requires d != []
    ensures StartupAsWrittenOf(Some([]), None, Success(d), toDate) == Crashed(LoadFailed(MissingDataColumn))
    ensures StartupOf(Some([]), None, Success(d), toDate).Ready?
  {
    StartupRecovers(Some([]), None, d, toDate);
  }

  /** As written, a run that starts with the memo holding an empty frame never gets a ready frame. */
  lemma StaleMemoPersists(file: Option<seq<StoredRow>>, built: Result<seq<DP.Record>, DP.Fatal>,
                          toDate: DP.Json -> Option<Timestamp>)
    ensures !StartupAsWrittenOf(file, Some([]), built, toDate).Ready?
  {
  }

  /**
   * The dashboard process: dati.json on disk, the `st.cache_data` memo of
   * `load_data`, and the source files `create_database` reads.
   */
  class Session {
    const features: seq<DP.Feature>
    const files: map<int, seq<DP.Entry>>
    const coerce: DP.Coercions
    const toDate: DP.Json -> Option<Timestamp>
    var snapshot: Option<seq<StoredRow>>
    var cached: Option<seq<Row>>
    /** How many times `create_database` has run. */
    ghost var builds: nat

    constructor (features: seq<DP.Feature>, files: map<int, seq<DP.Entry>>, coerce: DP.Coercions,
                 toDate: DP.Json -> Option<Timestamp>, snapshot: Option<seq<StoredRow>>)
      ensures this.features == features && this.files == files && this.coerce == coerce && this.toDate == toDate
      ensures this.snapshot == snapshot && cached == None && builds == 0
    {
      this.features := features;
      this.files := files;
      this.coerce := coerce;
      this.toDate := toDate;
      this.snapshot := snapshot;
      cached := None;
      builds := 0;
    }

    /** `create_database()`: dati.json is overwritten on success and left alone when the build raises. */
    method CreateDatabase() returns (failure: Option<DP.Fatal>)
      modifies this`snapshot, this`builds
      ensures builds == old(builds) + 1
      ensures var built := DP.Database(features, files, coerce);
              && (failure.Some? <==> built.Failure?)
              && (built.Failure? ==> failure == Some(built.error) && snapshot == old(snapshot))
              && (built.Success? ==> snapshot == Some(Dump(built.value)))
    {
      var built := DP.CreateDatabase(features, files, coerce);
      builds := builds + 1;
      match built
      case Failure(e) =>
        failure := Some(e);
      case Success(dati) =>
        snapshot := Some(Dump(dati));
        failure := None;
    }

    /** `load_data()` behind `@st.cache_data`, as written: a memoised frame is returned without reading the file. */
    method LoadDataAsWritten() returns (r: Result<seq<Row>, LoadError>)
      modifies this`cached
      ensures old(cached).Some? ==> r == Success(old(cached).value) && cached == old(cached)
      ensures old(cached).None? ==> r == ReadFrameAsWritten(snapshot, toDate)
      ensures old(cached).None? ==> cached == if r.Success? then Some(r.value) else None
    {
      if cached.Some? {
        return Success(cached.value);
      }
      r := ReadFrameAsWritten(snapshot, toDate);
      if r.Success? {
        cached := Some(r.value);
      }
    }

    /** `load_data()` behind `@st.cache_data`, reading an empty list as an empty frame. */
    method LoadData() returns (df: seq<Row>)
      modifies this`cached
      ensures old(cached).Some? ==> df == old(cached).value && cached == old(cached)
      ensures old(cached).None? ==> df == ReadFrame(snapshot, toDate) && cached == Some(df)
    {
      if cached.Some? {
        return cached.value;
      }
      df := ReadFrame(snapshot, toDate);
      cached := Some(df);
    }

    /** `load_data.clear()`: drops the memoised frame. */
    method ClearCache()
      modifies this`cached
      ensures cached == None
    {
      cached := None;
    }

    /** app.py:12-13 and 38-47 as written. */
    method StartupAsWritten() returns (o: Startup)
      modifies this
      ensures o == StartupAsWrittenOf(old(snapshot), old(cached), DP.Database(features, files, coerce), toDate)
      ensures var built := DP.Database(features, files, coerce);
              var initial := if old(snapshot).None? then 1 else 0;
              if old(snapshot).None? && built.Failure? then
                snapshot == old(snapshot) && cached == old(cached) && builds == old(builds) + 1
              else if FirstLoadAsWritten(old(snapshot), old(cached), built, toDate).Failure? then
                && snapshot == FileAfterCheck(old(snapshot), built)
                && cached == old(cached)
                && builds == old(builds) + initial
              else if FirstLoadAsWritten(old(snapshot), old(cached), built, toDate).value != [] then
                && snapshot == FileAfterCheck(old(snapshot), built)
                && cached == Some(FirstLoadAsWritten(old(snapshot), old(cached), built, toDate).value)
                && builds == old(builds) + initial
              else if built.Failure? then
                snapshot == old(snapshot) && cached == Some([]) && builds == old(builds) + 1
              else
                && snapshot == Some(Dump(built.value))
                && cached == Some([])
                && builds == old(builds) + initial + 1
    {
      ghost var built := DP.Database(features, files, coerce);
      if snapshot.None? {
        var failure := CreateDatabase();
        if failure.Some? {
          return Crashed(DatabaseFailed(failure.value));
        }
      }
      var df := LoadDataAsWritten();
      if df.Failure? {
        return Crashed(LoadFailed(df.error));
      }
      if df.value == [] {
        var failure := CreateDatabase();
        if failure.Some? {
          return Crashed(DatabaseFailed(failure.value));
        }
        df := LoadDataAsWritten();
        // served from the memo, which holds the empty frame of the first load
        assert df == Success([]);
        if df.value == [] {
          return Halted;
        }
      }
      return Ready(df.value);
    }

    /** The same sequence with the memo dropped after the rebuild, so that the reload reads the new file. */
    method Startup() returns (o: Startup)
      modifies this
      ensures o == StartupOf(old(snapshot), old(cached), DP.Database(features, files, coerce), toDate)
      ensures var built := DP.Database(features, files, coerce);
              var initial := if old(snapshot).None? then 1 else 0;
              if old(snapshot).None? && built.Failure? then
                snapshot == old(snapshot) && cached == old(cached) && builds == old(builds) + 1
              else if FirstLoad(old(snapshot), old(cached), built, toDate) != [] then
                && snapshot == FileAfterCheck(old(snapshot), built)
                && cached == Some(FirstLoad(old(snapshot), old(cached), built, toDate))
                && builds == old(builds) + initial
              else if built.Failure? then
                snapshot == old(snapshot) && cached == Some([]) && builds == old(builds) + 1
              else
                && snapshot == Some(Dump(built.value))
                && cached == Some(Frame(Dump(built.value), toDate))
                && builds == old(builds) + initial + 1
    {
      if snapshot.None? {
        var failure := CreateDatabase();
        if failure.Some? {
          return Crashed(DatabaseFailed(failure.value));
        }
      }
      var df := LoadData();
      if df == [] {
        var failure := CreateDatabase();
        if failure.Some? {
          return Crashed(DatabaseFailed(failure.value));
        }
        ClearCache();
        df := LoadData();
        if df == [] {
          return Halted;
        }
      }
      return Ready(df);
    }
  }
}
