/**
 * The yearly schedule file and the program's two entry points: the file is
 * named after the current year; update_and_save_abfuhrtermine removes last
 * year's file when this year's does not exist yet and then (re)writes this
 * year's file; check_tomorrow_matches reads this year's file back. The
 * working directory is a map from file name to the schedule stored in it.
 */
module Store {
  import opened Wrappers
  import opened Text
  import opened OrderedDict
  import opened Extractor
  import opened Notifier

  const FileSuffix: string := "_abfuhrtermine.json"

  /** The schedule file of the year written as yearText. */
  function FileName(yearText: string): string {
    yearText + FileSuffix
  }

  /** Different year texts name different files. */
  lemma FileNameInjective(a: string, b: string)
    requires a != b
    ensures FileName(a) != FileName(b)
  {
    if |a| == |b| {
      assert FileName(a)[..|a|] == a && FileName(b)[..|b|] == b;
    } else {
      assert |FileName(a)| != |FileName(b)|;
    }
  }

  /** The year text as the code writes it: strftime('20%y'), whose century is always "20". */
  function YearTextAsWritten(year: nat): (s: string)
    ensures |s| == 4 && AllDigits(s) && s[..2] == "20"
  {
    "20" + TwoDigits(year % 100)
  }

  /** The year text as intended: the calendar year in decimal. */
  function YearText(year: nat): (s: string)
    ensures AllDigits(s) && ParseDecimal(s) == year
  {
    ParseDecimalOfDecimal(year);
    Decimal(year)
  }

  /** Both year texts agree for every year from 2000 to 2099. */
  lemma YearTextAgrees(year: nat)
    requires 2000 <= year <= 2099
    ensures YearTextAsWritten(year) == YearText(year)
  {
    var yy := year - 2000;
    assert year % 100 == yy && year / 10 == 200 + yy / 10 && year % 10 == yy % 10;
    assert (year / 10) / 10 == 20 && (year / 10) % 10 == yy / 10;
    assert Decimal(20) == "20";
    assert Decimal(year / 10) == "20" + [DigitChar(yy / 10)];
  }

  /** In 2100 the code's year text reads "2000", so the wrong file is written. */
  lemma YearTextAsWrittenWrapsIn2100()
    ensures YearTextAsWritten(2100) == "2000"
    ensures YearText(2100) == "2100"
  {
    assert Decimal(21) == "21";
    assert Decimal(210) == "210";
  }

  /** This year's file. */
  function CurrentFile(year: nat): string {
    FileName(YearText(year))
  }

  /** The file that the rollover removes: the year before, `int(year) - 1`. */
  function PreviousFile(year: nat): string
    requires year >= 1
  {
    FileName(Decimal(ParseDecimal(YearText(year)) - 1))
  }

  /** This year's and last year's files are two different files. */
  lemma CurrentIsNotPrevious(year: nat)
    requires year >= 1
    ensures CurrentFile(year) != PreviousFile(year)
    ensures PreviousFile(year) == FileName(Decimal(year - 1))
  {
    DecimalInjective(year, year - 1);
    FileNameInjective(Decimal(year), Decimal(year - 1));
  }

  /**
   * The set of files after update_and_save: the previous file goes only when
   * the current file is absent, and the current file is always there after.
   */
  function Rollover(files: set<string>, current: string, previous: string): (r: set<string>)
    ensures current in r
    ensures forall f :: f != current ==> (f in r <==> f in files && (f != previous || current in files))
  {
    (if current in files then files else files - {previous}) + {current}
  }

  /**
   * After the rollover this year's file exists; last year's file survives
   * exactly when it existed and this year's file already existed; every
   * other file is untouched.
   */
  lemma RolloverSpec(files: set<string>, year: nat)
    requires year >= 1
    ensures var after := Rollover(files, CurrentFile(year), PreviousFile(year));
      && CurrentFile(year) in after
      && (PreviousFile(year) in after <==> PreviousFile(year) in files && CurrentFile(year) in files)
      && forall f :: f != CurrentFile(year) && f != PreviousFile(year) ==> (f in after <==> f in files)
  {
    CurrentIsNotPrevious(year);
  }

  /**
   * A second run in the same year leaves the set of files as the first run
   * left it: once this year's file exists, last year's is never looked at again.
   */
  lemma RolloverIdempotent(files: set<string>, current: string, previous: string)
    ensures Rollover(Rollover(files, current, previous), current, previous) == Rollover(files, current, previous)
  {
  }

  /** The error the file operations raise. */
  datatype IoError = FileNotFound(name: string)

  /** The working directory: each file's name and the schedule stored in it. */
  class Directory {
    var files: map<string, Dict>

    /** Every stored schedule is a well-formed dict. */
    ghost predicate Valid()
      reads this
    {
      forall f :: f in files ==> files[f].Valid()
    }

    constructor (files: map<string, Dict>)
      requires forall f :: f in files ==> files[f].Valid()
      ensures Valid() && this.files == files
    {
      this.files := files;
    }

    /** os.path.exists: whether the directory holds a file of that name. */
    function Exists(name: string): (b: bool)
      reads this
      ensures b <==> name in files.Keys
    {
      name in files
    }

    /** os.remove on a file that exists. */
    method Remove(name: string)
      requires Valid() && name in files
      modifies this
      ensures Valid() && files == old(files) - {name}
    {
      files := files - {name};
    }

    /** save_json: the file name holds data afterwards, whatever it held before. */
    method Save(name: string, data: Dict)
      requires Valid() && data.Valid()
      modifies this
      ensures Valid() && files == old(files)[name := data]
    {
      files := files[name := data];
    }

    /** open and json.load: the stored schedule, or FileNotFound. */
    method Load(name: string) returns (r: Result<Dict, IoError>)
      requires Valid()
      ensures r.Ok? <==> name in files
      ensures r.Ok? ==> r.value == files[name] && r.value.Valid()
      ensures r.Err? ==> r.error == FileNotFound(name)
    {
      if name in files {
        r := Ok(files[name]);
      } else {
        r := Err(FileNotFound(name));
      }
    }
  }

  /**
   * update_and_save_abfuhrtermine for the given year and table rows: the
   * files follow Rollover, this year's file holds the freshly extracted
   * schedule, and every other remaining file keeps its content.
   */
  method UpdateAndSave(dir: Directory, year: nat, rows: seq<Row>)
    requires year >= 1 && dir.Valid()
    modifies dir
    ensures dir.Valid()
    ensures dir.files.Keys == Rollover(old(dir.files).Keys, CurrentFile(year), PreviousFile(year))
    ensures dir.files[CurrentFile(year)] == Extract(rows)
    ensures forall f :: f in dir.files && f != CurrentFile(year) ==> dir.files[f] == old(dir.files)[f]
  {
    var yearText := YearText(year);
    var fileName := FileName(yearText);
    if !dir.Exists(fileName) {
      var deprecatedFile := FileName(Decimal(ParseDecimal(yearText) - 1));
      if dir.Exists(deprecatedFile) {
        dir.Remove(deprecatedFile);
      }
    }
    var newData := ScrapeRows(rows);
    dir.Save(fileName, newData);
  }

  /**
   * check_tomorrow_matches for the given year and tomorrow's date string: the
   * matching categories of this year's file, or FileNotFound when it is missing.
   */
  method CheckTomorrowMatches(dir: Directory, year: nat, tomorrow: string)
    returns (r: Result<seq<string>, IoError>)
    requires dir.Valid()
    ensures CurrentFile(year) in dir.files ==> r == Ok(Matches(dir.files[CurrentFile(year)], tomorrow))
    ensures CurrentFile(year) !in dir.files ==> r == Err(FileNotFound(CurrentFile(year)))
  {
    var loaded := dir.Load(FileName(YearText(year)));
    match loaded {
      case Err(e) =>
        r := Err(e);
      case Ok(data) =>
        var matched := CheckMatches(data, tomorrow);
        r := Ok(matched);
    }
  }

  /**
   * The program's main block: update and save, then check tomorrow. The check
   * always finds the file just written and reports the matches of the fresh
   * schedule.
   */
  method RunOnce(dir: Directory, year: nat, tomorrow: string, rows: seq<Row>)
    returns (r: Result<seq<string>, IoError>)
    requires year >= 1 && dir.Valid()
    modifies dir
    ensures r == Ok(Matches(Extract(rows), tomorrow))
    ensures dir.Valid()
    ensures dir.files.Keys == Rollover(old(dir.files).Keys, CurrentFile(year), PreviousFile(year))
    ensures dir.files[CurrentFile(year)] == Extract(rows)
    ensures forall f :: f in dir.files && f != CurrentFile(year) ==> dir.files[f] == old(dir.files)[f]
  {
    UpdateAndSave(dir, year, rows);
    r := CheckTomorrowMatches(dir, year, tomorrow);
  }

  /**
   * Two runs in the same year: the second finds this year's file, keeps last
   * year's file as the first run left it, and reports the matches of its own
   * freshly extracted schedule.
   */
  method RunTwice(dir: Directory, year: nat, tomorrow: string, rows1: seq<Row>, rows2: seq<Row>)
    returns (r1: Result<seq<string>, IoError>, r2: Result<seq<string>, IoError>)
    requires year >= 1 && dir.Valid()
    modifies dir
    ensures r1 == Ok(Matches(Extract(rows1), tomorrow)) && r2 == Ok(Matches(Extract(rows2), tomorrow))
    ensures dir.Valid()
    ensures dir.files.Keys == Rollover(old(dir.files).Keys, CurrentFile(year), PreviousFile(year))
    ensures dir.files[CurrentFile(year)] == Extract(rows2)
  {
    r1 := RunOnce(dir, year, tomorrow, rows1);
    r2 := RunOnce(dir, year, tomorrow, rows2);
    RolloverIdempotent(old(dir.files).Keys, CurrentFile(year), PreviousFile(year));
  }
}
