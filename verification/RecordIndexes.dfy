/** The index of one data file: when it is built, reused, opened and closed. */
module RecordIndexes {
  import opened Wrappers
  import opened Texts
  import opened TextFiles
  import opened Recordings
  import opened Indexing

  /** An index file with its modification time in seconds. */
  datatype Stored = Stored(db: Index, time: int)

  /** The text file and the index file of one data file, as the file system has them. */
  datatype Disk = Disk(text: Bytes, textTime: int, stored: Option<Stored>)

  /** How an operation ends: well, with the error the caller handles, or with one it does not: on a
      blank tag, or on closing what is not open. */
  datatype Fault = NoFault | SnmpsimError | TagFailed | CloseFailed

  /** An index file is reused only when it is strictly newer than the text and of a known format. */
  predicate IsReusable(d: Disk, recognised: bool) {
    d.stored.Some? && d.textTime < d.stored.value.time && recognised
  }

  datatype Created = Created(disk: Disk, fault: Fault)

  /** `create`: the index file afterwards, at time `now`. A refused record removes it; a blank tag
      leaves the part written so far. */
  function CreateOn(parser: TextParser, d: Disk, force: bool, validate: bool, recognised: bool, now: int): Created {
    if !force && IsReusable(d, recognised) then Created(d, NoFault)
    else
      match IndexPass(parser, d.text, validate)
      case Indexed(db) => Created(d.(stored := Some(Stored(db, now))), NoFault)
      case DataError(_) => Created(d.(stored := None), SnmpsimError)
      case BlankTag(db) => Created(d.(stored := Some(Stored(db, now))), TagFailed)
  }

  /** What is open: the content the text handle reads and the index. */
  datatype Handles = Handles(content: Bytes, db: Index)

  datatype State = State(disk: Disk, handles: Option<Handles>, seenTime: int)

  /** `get_handles` at time `now`. */
  function OpenStep(parser: TextParser, s: State, recognised: bool, now: int): (State, Fault) {
    if s.handles.Some? && s.seenTime == s.disk.textTime then (s, NoFault)
    else
      var r := CreateOn(parser, s.disk, false, false, recognised, now);
      if r.fault.NoFault? && r.disk.stored.Some? then
        (State(r.disk, Some(Handles(r.disk.text, r.disk.stored.value.db)), r.disk.textTime), NoFault)
      else (State(r.disk, None, s.seenTime), r.fault)
  }

  class RecordIndex {
    const parser: TextParser
    var disk: Disk
    var text: TextFile?
    var db: Option<Index>
    var textFileTime: int

    ghost predicate Valid()
      reads this
    {
      db.Some? <==> text != null
    }

    ghost function Abs(): State
      requires Valid()
      reads this
    {
      State(disk, if db.Some? then Some(Handles(text.content, db.value)) else None, textFileTime)
    }

    constructor (parser: TextParser, disk: Disk)
      ensures Valid() && this.parser == parser && Abs() == State(disk, None, 0)
    {
      this.parser := parser;
      this.disk := disk;
      text, db := null, None;
      textFileTime := 0;
    }

    predicate IsOpen()
      reads this
    {
      db.Some?
    }

    /** The text file gets new content and a modification time. */
    method TextModified(content: Bytes, time: int)
      requires Valid()
      modifies this
      ensures Valid() && Abs() == old(Abs()).(disk := old(disk).(text := content, textTime := time))
    {
      disk := disk.(text := content, textTime := time);
    }

    method Create(force: bool, validate: bool, recognised: bool, now: int) returns (fault: Fault)
      requires Valid()
      modifies this
      ensures Valid()
      ensures var r := CreateOn(parser, old(disk), force, validate, recognised, now);
              && fault == r.fault
              && Abs() == State(r.disk, old(Abs()).handles,
                                if fault.NoFault? then old(disk).textTime else old(textFileTime))
              && (fault.NoFault? ==> r.disk.stored.Some?)
    {
      var indexNeeded := force;
      if disk.stored.Some? {
        if disk.textTime < disk.stored.value.time {
          if !indexNeeded && !recognised {
            indexNeeded := true;
          }
        } else {
          indexNeeded := true;
        }
      } else {
        indexNeeded := true;
      }
      if indexNeeded {
        var file := new TextFile(disk.text);
        var pass := BuildIndex(file, parser, validate);
        match pass
        case DataError(_) =>
          disk := disk.(stored := None);
          return SnmpsimError;
        case BlankTag(partial) =>
          disk := disk.(stored := Some(Stored(partial, now)));
          return TagFailed;
        case Indexed(db) =>
          disk := disk.(stored := Some(Stored(db, now)));
      }
      textFileTime := disk.textTime;
      return NoFault;
    }

    method Open()
      requires Valid() && disk.stored.Some?
      modifies this
      ensures Valid() && fresh(text)
      ensures Abs() == old(Abs()).(handles := Some(Handles(old(disk).text, old(disk).stored.value.db)))
    {
      text := new TextFile(disk.text);
      db := Some(disk.stored.value.db);
    }

    method Close() returns (fault: Fault)
      requires Valid()
      modifies this
      ensures Valid() && Abs() == old(Abs()).(handles := None)
      ensures fault == if old(IsOpen()) then NoFault else CloseFailed
    {
      if text == null {
        return CloseFailed;
      }
      text, db := null, None;
      return NoFault;
    }

    method GetHandles(recognised: bool, now: int) returns (fault: Fault)
      requires Valid()
      modifies this
      ensures Valid() && (Abs(), fault) == OpenStep(parser, old(Abs()), recognised, now)
      ensures IsOpen() <==> fault.NoFault?
      ensures IsOpen() ==> text == old(text) || fresh(text)
    {
      if IsOpen() {
        if textFileTime != disk.textTime {
          var _ := Close();
        }
      }
      if !IsOpen() {
        fault := Create(false, false, recognised, now);
        if fault != NoFault {
          return;
        }
        Open();
      }
      return NoFault;
    }
  }
}
