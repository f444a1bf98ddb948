/**
 * cut::Logger: a log that filters records by type through a three-bit mask, prefixes them
 * with an optional timestamp and a type label, and appends them to its file; and the table of
 * named loggers that AttachLogger, GetLogger and DeleteLogger maintain.
 *
 * The file is modelled as the sequence of lines written to it, and the clock as the timestamp
 * text each logging call is given.
 */
module Logging {
  import opened Outcomes

  /** The LogType enumeration: one bit per type of record, and the masks built from them. */
  type LogType = bv3

  const MESSAGE: LogType := 1
  const WARNING: LogType := 2
  const ERROR: LogType := 4
  const ALL: LogType := 7
  const IMPORTANT: LogType := 6
  const NONE: LogType := 0

  /** The three types a single record can have. */
  predicate IsSingleType(t: LogType) {
    t == MESSAGE || t == WARNING || t == ERROR
  }

  /** A mask lets a type through when they share a bit. */
  predicate Admits(mask: LogType, t: LogType) {
    mask & t != 0
  }

  /** A mask is fixed by which of the three types it lets through. */
  lemma MaskIsItsTypes(a: LogType, b: LogType)
    requires forall t :: IsSingleType(t) ==> (Admits(a, t) <==> Admits(b, t))
    ensures a == b
  {
    assert Admits(a, MESSAGE) <==> Admits(b, MESSAGE);
    assert Admits(a, WARNING) <==> Admits(b, WARNING);
    assert Admits(a, ERROR) <==> Admits(b, ERROR);
  }

  /** The mask after Enable(types): the given types are let through, the others as before. */
  function EnableMask(mask: LogType, types: LogType): (r: LogType)
    ensures forall t :: IsSingleType(t) ==> (Admits(r, t) <==> Admits(types, t) || Admits(mask, t))
  {
    mask | types
  }

  /** The mask after Disable(types): the given types are stopped, the others as before. */
  function DisableMask(mask: LogType, types: LogType): (r: LogType)
    ensures forall t :: IsSingleType(t) ==> (Admits(r, t) <==> !Admits(types, t) && Admits(mask, t))
  {
    mask & !types
  }

  /** The named masks of the enumeration, as the types they let through: ALL every type,
      IMPORTANT warnings and errors, NONE nothing. Hence Disable(IMPORTANT) on the full mask
      leaves messages only, and Enable(NONE) changes nothing. */
  lemma NamedMasks(mask: LogType)
    ensures forall t :: IsSingleType(t) ==> Admits(ALL, t) && !Admits(NONE, t)
    ensures forall t :: IsSingleType(t) ==> (Admits(IMPORTANT, t) <==> t != MESSAGE)
    ensures DisableMask(ALL, IMPORTANT) == MESSAGE
    ensures EnableMask(mask, NONE) == mask && EnableMask(mask, ALL) == ALL
  {
    MaskIsItsTypes(EnableMask(mask, NONE), mask);
    MaskIsItsTypes(EnableMask(mask, ALL), ALL);
    MaskIsItsTypes(DisableMask(ALL, IMPORTANT), MESSAGE);
  }

  /** The label written after the timestamp; the C++ code's switch writes nothing for any other
      value, which its assertion has already excluded. */
  function Label(t: LogType): (r: string)
    ensures r != "" <==> IsSingleType(t)
    ensures r != "" ==> |r| >= 4 && r[0] == '(' && r[|r| - 3..] == "): "
  {
    if t == MESSAGE then "(MESSAGE): "
    else if t == WARNING then "(WARNING): "
    else if t == ERROR then "(ERROR): "
    else ""
  }

  /** One line of a log file: the timestamp and a space when timestamps are on, the type's
      label, then the message. */
  function Record(withStamp: bool, stamp: string, t: LogType, msg: string): (r: string)
    ensures |r| == (if withStamp then |stamp| + 1 else 0) + |Label(t)| + |msg|
    ensures r[|r| - |msg|..] == msg
    ensures withStamp ==> r[..|stamp| + 1] == stamp + " "
  {
    (if withStamp then stamp + " " else "") + Label(t) + msg
  }

  /** A line read back under the same timestamp gives its type and message: records of
      different types or messages never coincide. */
  lemma RecordIsUnambiguous(withStamp: bool, stamp: string, t1: LogType, m1: string, t2: LogType, m2: string)
    requires IsSingleType(t1) && IsSingleType(t2)
    requires Record(withStamp, stamp, t1, m1) == Record(withStamp, stamp, t2, m2)
    ensures t1 == t2 && m1 == m2
  {
    var pre := if withStamp then stamp + " " else "";
    var r1, r2 := Record(withStamp, stamp, t1, m1), Record(withStamp, stamp, t2, m2);
    assert r1 == pre + Label(t1) + m1 && r2 == pre + Label(t2) + m2;
    assert r1[|pre| + 1] == Label(t1)[1];
    assert r2[|pre| + 1] == Label(t2)[1];
    assert t1 == t2;
    assert m1 == r1[|pre| + |Label(t1)|..];
  }

  class Logger {
    /** The path of the log file. */
    const file: string
    /** The types written; the others are dropped. */
    var mask: LogType
    /** Whether records start with a timestamp. */
    var timestamps: bool
    /** The lines written to the file so far. */
    var records: seq<string>

    /** A logger writing to a new, empty file. The C++ code's defaults are ALL and true. */
    constructor (logFile: string, mask: LogType, withTimestamps: bool)
      ensures file == logFile && this.mask == mask && timestamps == withTimestamps
      ensures records == []
    {
      file := logFile;
      this.mask := mask;
      timestamps := withTimestamps;
      records := [];
    }

    /** Writes a record of type t unless the mask drops it. Assertion unless t is exactly one
        type, in which case nothing is written. */
    method Log(t: LogType, msg: string, stamp: string) returns (r: Outcome)
      modifies this`records
      ensures r == if IsSingleType(t) then Success else Failure(Assertion)
      ensures records == old(records) + (if r.Success? && Admits(mask, t) then [Record(timestamps, stamp, t, msg)] else [])
    {
      if !IsSingleType(t) {
        return Failure(Assertion);
      }
      r := Success;
      if t & mask == 0 {
        return;
      }
      var line := if timestamps then stamp + " " else "";
      if t == MESSAGE {
        line := line + "(MESSAGE): ";
      } else if t == WARNING {
        line := line + "(WARNING): ";
      } else if t == ERROR {
        line := line + "(ERROR): ";
      }
      records := records + [line + msg];
    }

    method Message(msg: string, stamp: string)
      modifies this`records
      ensures records == old(records) + (if Admits(mask, MESSAGE) then [Record(timestamps, stamp, MESSAGE, msg)] else [])
    {
      var r := Log(MESSAGE, msg, stamp);
    }

    method Warning(msg: string, stamp: string)
      modifies this`records
      ensures records == old(records) + (if Admits(mask, WARNING) then [Record(timestamps, stamp, WARNING, msg)] else [])
    {
      var r := Log(WARNING, msg, stamp);
    }

    method Error(msg: string, stamp: string)
      modifies this`records
      ensures records == old(records) + (if Admits(mask, ERROR) then [Record(timestamps, stamp, ERROR, msg)] else [])
    {
      var r := Log(ERROR, msg, stamp);
    }

    /** The mask Log filters by. */
    function GetMask(): (r: LogType)
      reads this
      ensures forall t :: IsSingleType(t) ==> (Admits(r, t) <==> Admits(mask, t))
      ensures r == mask
    {
      mask
    }

    method SetMask(m: LogType)
      modifies this`mask
      ensures mask == m
    {
      mask := m;
    }

    method Enable(types: LogType)
      modifies this`mask
      ensures mask == EnableMask(old(mask), types)
    {
      mask := mask | types;
    }

    method Disable(types: LogType)
      modifies this`mask
      ensures mask == DisableMask(old(mask), types)
    {
      mask := mask & !types;
    }

    method EnableMessages()
      modifies this`mask
      ensures Admits(mask, MESSAGE)
      ensures forall t :: IsSingleType(t) && t != MESSAGE ==> (Admits(mask, t) <==> old(Admits(mask, t)))
    {
      Enable(MESSAGE);
    }

    method DisableMessages()
      modifies this`mask
      ensures !Admits(mask, MESSAGE)
      ensures forall t :: IsSingleType(t) && t != MESSAGE ==> (Admits(mask, t) <==> old(Admits(mask, t)))
    {
      Disable(MESSAGE);
    }

    method EnableWarnings()
      modifies this`mask
      ensures Admits(mask, WARNING)
      ensures forall t :: IsSingleType(t) && t != WARNING ==> (Admits(mask, t) <==> old(Admits(mask, t)))
    {
      Enable(WARNING);
    }

    method DisableWarnings()
      modifies this`mask
      ensures !Admits(mask, WARNING)
      ensures forall t :: IsSingleType(t) && t != WARNING ==> (Admits(mask, t) <==> old(Admits(mask, t)))
    {
      Disable(WARNING);
    }

    method EnableErrors()
      modifies this`mask
      ensures Admits(mask, ERROR)
      ensures forall t :: IsSingleType(t) && t != ERROR ==> (Admits(mask, t) <==> old(Admits(mask, t)))
    {
      Enable(ERROR);
    }

    method DisableErrors()
      modifies this`mask
      ensures !Admits(mask, ERROR)
      ensures forall t :: IsSingleType(t) && t != ERROR ==> (Admits(mask, t) <==> old(Admits(mask, t)))
    {
      Disable(ERROR);
    }

    /** Whether Log starts each line with a timestamp. */
    function HasTimestamps(): (r: bool)
      reads this
      ensures r == timestamps
    {
      timestamps
    }

    method UseTimestamps(withTimestamps: bool)
      modifies this`timestamps
      ensures timestamps == withTimestamps
    {
      timestamps := withTimestamps;
    }

    method EnableTimestamps()
      modifies this`timestamps
      ensures timestamps
    {
      timestamps := true;
    }

    method DisableTimestamps()
      modifies this`timestamps
      ensures !timestamps
    {
      timestamps := false;
    }
  }

  /** The table of named loggers. */
  class Registry {
    var logs: map<string, Logger>

    constructor ()
      ensures logs == map[]
    {
      logs := map[];
    }

    /** Creates a logger under a new name; Assertion, and no change, if the name is taken. */
    method Attach(name: string, logFile: string, mask: LogType, withTimestamps: bool) returns (r: Outcome)
      modifies this
      ensures r == if name in old(logs) then Failure(Assertion) else Success
      ensures r.Failure? ==> logs == old(logs)
      ensures r.Success? ==> logs.Keys == old(logs).Keys + {name}
      ensures r.Success? ==> forall n :: n in old(logs) ==> logs[n] == old(logs)[n]
      ensures r.Success? ==> fresh(logs[name]) && logs[name].file == logFile && logs[name].mask == mask
                             && logs[name].timestamps == withTimestamps && logs[name].records == []
    {
      if name in logs {
        return Failure(Assertion);
      }
      var l := new Logger(logFile, mask, withTimestamps);
      logs := logs[name := l];
      r := Success;
    }

    /** The logger attached under the name; Assertion if there is none. */
    function Get(name: string): (r: Result<Logger>)
      reads this
      ensures r.Fail? <==> name !in logs
      ensures r.Fail? ==> r.error == Assertion
      ensures r.Ok? ==> name in logs && r.value == logs[name]
    {
      if name !in logs then Fail(Assertion) else Ok(logs[name])
    }

    /** Removes the logger under the name and no other; Assertion, and no change, if there is
        none. */
    method Delete(name: string) returns (r: Outcome)
      modifies this
      ensures r == if name in old(logs) then Success else Failure(Assertion)
      ensures r.Failure? ==> logs == old(logs)
      ensures r.Success? ==> logs == old(logs) - {name}
    {
      if name !in logs {
        return Failure(Assertion);
      }
      logs := logs - {name};
      r := Success;
    }
  }

  /** The lines logging one message m, one warning w and one error e, in that order, leaves in
      a file through a mask. */
  function Trio(mask: LogType, withStamp: bool, stamp: string, m: string, w: string, e: string): seq<string> {
    (if Admits(mask, MESSAGE) then [Record(withStamp, stamp, MESSAGE, m)] else [])
    + (if Admits(mask, WARNING) then [Record(withStamp, stamp, WARNING, w)] else [])
    + (if Admits(mask, ERROR) then [Record(withStamp, stamp, ERROR, e)] else [])
  }

  /** What the trio leaves under the masks the library's test uses. */
  lemma TrioValues(stamp: string, m: string, w: string, e: string)
    ensures Trio(ALL, true, stamp, m, w, e)
         == [Record(true, stamp, MESSAGE, m), Record(true, stamp, WARNING, w), Record(true, stamp, ERROR, e)]
    ensures Trio(MESSAGE, true, stamp, m, w, e) == [Record(true, stamp, MESSAGE, m)]
    ensures forall b :: Trio(IMPORTANT, b, stamp, m, w, e) == [Record(b, stamp, WARNING, w), Record(b, stamp, ERROR, e)]
  {
    NamedMasks(IMPORTANT);
  }

  /** The three calls the library's test repeats on a logger. */
  method LogTrio(l: Logger, stamp: string, m: string, w: string, e: string)
    modifies l`records
    ensures l.records == old(l.records) + Trio(l.mask, l.timestamps, stamp, m, w, e)
  {
    l.Message(m, stamp);
    l.Warning(w, stamp);
    l.Error(e, stamp);
  }

  /** The first half of the library's logger test, for any message, warning and error text,
      every call given the same timestamp text: "first" (all types, timestamps) writes the
      three records, then only the message after Disable(IMPORTANT), then all three again
      after Enable(ALL). */
  method FirstLoggerScenario(reg: Registry, stamp: string, m: string, w: string, e: string) returns (one: Logger)
    requires reg.logs == map[]
    modifies reg
    ensures fresh(one) && reg.logs == map["first" := one]
    ensures one.records
         == [Record(true, stamp, MESSAGE, m), Record(true, stamp, WARNING, w), Record(true, stamp, ERROR, e),
             Record(true, stamp, MESSAGE, m),
             Record(true, stamp, MESSAGE, m), Record(true, stamp, WARNING, w), Record(true, stamp, ERROR, e)]
  {
    NamedMasks(IMPORTANT);
    TrioValues(stamp, m, w, e);
    var all := Trio(ALL, true, stamp, m, w, e);
    var r := reg.Attach("first", "first.log", ALL, true);
    one := reg.Get("first").value;
    LogTrio(one, stamp, m, w, e);
    assert one.records == all;
    one.Disable(IMPORTANT);
    LogTrio(one, stamp, m, w, e);
    assert one.records == all + [Record(true, stamp, MESSAGE, m)];
    one.Enable(ALL);
    LogTrio(one, stamp, m, w, e);
  }

  /** The second half: "second" (IMPORTANT, no timestamps) writes the warning and the error,
      bare; after "first" is deleted, timestamps are switched on and Enable(NONE) changes
      nothing, so the warning and the error are written again with timestamps. */
  method SecondLoggerScenario(reg: Registry, stamp: string, m: string, w: string, e: string) returns (two: Logger)
    requires reg.logs.Keys == {"first"}
    modifies reg
    ensures fresh(two) && reg.logs == map["second" := two]
    ensures two.records
         == [Record(false, stamp, WARNING, w), Record(false, stamp, ERROR, e),
             Record(true, stamp, WARNING, w), Record(true, stamp, ERROR, e)]
  {
    NamedMasks(IMPORTANT);
    var r := reg.Attach("second", "second.log", IMPORTANT, false);
    two := reg.Get("second").value;
    LogTrio(two, stamp, m, w, e);
    r := reg.Delete("first");
    two := reg.Get("second").value;
    two.EnableTimestamps();
    two.Enable(NONE);
    LogTrio(two, stamp, m, w, e);
    TrioValues(stamp, m, w, e);
  }

  /** The whole test: the two halves in turn, on one table. */
  method LogScenario(stamp: string, m: string, w: string, e: string)
    returns (first: seq<string>, second: seq<string>, names: set<string>)
    ensures first == [Record(true, stamp, MESSAGE, m), Record(true, stamp, WARNING, w), Record(true, stamp, ERROR, e),
                      Record(true, stamp, MESSAGE, m),
                      Record(true, stamp, MESSAGE, m), Record(true, stamp, WARNING, w), Record(true, stamp, ERROR, e)]
    ensures second == [Record(false, stamp, WARNING, w), Record(false, stamp, ERROR, e),
                       Record(true, stamp, WARNING, w), Record(true, stamp, ERROR, e)]
    ensures names == {"second"}
  {
    var reg := new Registry();
    var one := FirstLoggerScenario(reg, stamp, m, w, e);
    var two := SecondLoggerScenario(reg, stamp, m, w, e);
    first, second, names := one.records, two.records, reg.logs.Keys;
  }
}
