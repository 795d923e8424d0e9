/** The file-backed key/value store behind the per-guild configuration
    commands: an in-memory object, loaded from its file on first use and
    written back after every change. */
module Storage {
  import opened JsValues

  /** The store's file as a read sees it: absent, readable (with what
      `JSON.parse` makes of it, `None` when it throws), or failing to read
      for any other reason. */
  datatype DiskFile = Absent | Text(parsed: Option<map<string, JsValue>>) | Unreadable

  /** An operation that completed, or threw. */
  datatype Outcome<T> = Ok(value: T) | Threw

  /** `data[key]`: undefined for a missing key. */
  function Read(data: map<string, JsValue>, key: string): (r: JsValue)
    ensures key in data ==> r == data[key]
    ensures key !in data ==> r == JUndefined
  {
    if key in data then data[key] else JUndefined
  }

  /** What the file holds after a successful write of `data`. */
  function Written(data: map<string, JsValue>): (r: DiskFile)
    ensures r.Text? && r.parsed == Some(data)
  {
    Text(Some(data))
  }

  class Database {
    var data: map<string, JsValue>
    var initialized: bool
    /** The store's file. */
    var disk: DiskFile
    /** Whether `writeFile` on the store's file succeeds. */
    const writable: bool

    /** A fresh store: empty, not yet loaded. */
    constructor (disk: DiskFile, writable: bool)
      ensures data == map[] && !initialized && this.disk == disk && this.writable == writable
    {
      data := map[];
      initialized := false;
      this.disk := disk;
      this.writable := writable;
    }

    /** `save`: the whole object written to the file; a failed write is
        logged and rethrown, and the file keeps what it held. */
    method Save() returns (r: Outcome<()>)
      modifies this
      ensures data == old(data) && initialized == old(initialized)
      ensures r.Ok? <==> writable
      ensures r.Ok? ==> disk == Written(data)
      ensures r.Threw? ==> disk == old(disk)
    {
      if !writable {
        return Threw;
      }
      disk := Written(data);
      r := Ok(());
    }

    /** `init`: load the file; a missing file is created from the current
        contents; any other failure, or a failed creation, propagates and
        leaves the store unloaded. */
    method Init() returns (ok: bool)
      modifies this
      ensures ok <==> LoadOk(false, old(disk), writable)
      ensures initialized == (ok || old(initialized))
      ensures ok && old(disk).Absent? ==> data == old(data) && disk == Written(data)
      ensures old(disk).Text? && old(disk).parsed.Some? ==> data == old(disk).parsed.value && disk == old(disk)
      ensures !ok ==> data == old(data) && disk == old(disk)
    {
      if disk.Unreadable? || (disk.Text? && disk.parsed.None?) {
        return false;
      }
      if disk.Absent? {
        var saved := Save();
        if saved.Threw? {
          return false;
        }
      } else {
        data := disk.parsed.value;
      }
      initialized := true;
      ok := true;
    }

    /** `get`: loads first if needed, then reads the key; a failed load
        propagates and leaves the store as it was. */
    method Get(key: string) returns (r: Outcome<JsValue>)
      modifies this
      ensures r.Ok? <==> LoadOk(old(initialized), old(disk), writable)
      ensures data == LoadedData(old(initialized), old(disk), old(data))
      ensures disk == LoadedDisk(old(initialized), old(disk), old(data), writable)
      ensures initialized == LoadOk(old(initialized), old(disk), writable)
      ensures r.Ok? ==> r.value == Read(data, key)
      ensures r.Threw? ==> data == old(data) && disk == old(disk) && !initialized
    {
      if !initialized {
        var ok := Init();
        if !ok {
          return Threw;
        }
      }
      r := Ok(Read(data, key));
    }

    /** `set`: loads first if needed, stores the value under the key and
        writes the file; every other key keeps its loaded value. A failed
        write rethrows after the value is already in memory. */
    method Set(key: string, value: JsValue) returns (r: Outcome<()>)
      modifies this
      ensures r.Ok? <==> LoadOk(old(initialized), old(disk), writable) && writable
      ensures LoadOk(old(initialized), old(disk), writable) ==>
                && data == LoadedData(old(initialized), old(disk), old(data))[key := value]
                && initialized
                && disk == (if writable then Written(data) else LoadedDisk(old(initialized), old(disk), old(data), writable))
      ensures r.Ok? ==>
                && Read(data, key) == value
                && forall k :: k != key ==> Read(data, k) == Read(LoadedData(old(initialized), old(disk), old(data)), k)
      ensures !LoadOk(old(initialized), old(disk), writable) ==> data == old(data) && disk == old(disk) && !initialized
    {
      if !initialized {
        var ok := Init();
        if !ok {
          return Threw;
        }
      }
      data := data[key := value];
      r := Save();
    }

    /** `delete`: loads first if needed, removes the key and writes the
        file; every other key keeps its loaded value. A failed write
        rethrows after the key is already gone from memory. */
    method Delete(key: string) returns (r: Outcome<()>)
      modifies this
      ensures r.Ok? <==> LoadOk(old(initialized), old(disk), writable) && writable
      ensures LoadOk(old(initialized), old(disk), writable) ==>
                && data == LoadedData(old(initialized), old(disk), old(data)) - {key}
                && initialized
                && disk == (if writable then Written(data) else LoadedDisk(old(initialized), old(disk), old(data), writable))
      ensures r.Ok? ==>
                && Read(data, key) == JUndefined
                && forall k :: k != key ==> Read(data, k) == Read(LoadedData(old(initialized), old(disk), old(data)), k)
      ensures !LoadOk(old(initialized), old(disk), writable) ==> data == old(data) && disk == old(disk) && !initialized
    {
      if !initialized {
        var ok := Init();
        if !ok {
          return Threw;
        }
      }
      data := data - {key};
      r := Save();
    }
  }

  /** Whether the load that every access starts with succeeds: the store is
      already loaded, or its file parses, or it is missing and can be created. */
  predicate LoadOk(initialized: bool, disk: DiskFile, writable: bool)
  {
    initialized || (disk.Absent? && writable) || (disk.Text? && disk.parsed.Some?)
  }

  /** The contents in memory after the load every access starts with: only
      a freshly parsed file replaces them. */
  function LoadedData(initialized: bool, disk: DiskFile, data: map<string, JsValue>): (r: map<string, JsValue>)
    ensures initialized ==> r == data
    ensures !initialized ==> r == InitialData(disk, data)
    ensures !(initialized || (disk.Text? && disk.parsed.Some?)) ==> r == data
  {
    if initialized then data else InitialData(disk, data)
  }

  /** The file after that load: a missing file has been created from the
      contents in memory when it can be, anything else is left as it was. */
  function LoadedDisk(initialized: bool, disk: DiskFile, data: map<string, JsValue>, writable: bool): (r: DiskFile)
    ensures initialized || !LoadOk(initialized, disk, writable) ==> r == disk
    ensures !initialized && LoadOk(initialized, disk, writable) ==>
              r.Text? && r.parsed == Some(LoadedData(initialized, disk, data))
  {
    if !initialized && disk.Absent? && writable then Written(data) else disk
  }

  /** The contents a successful first load leaves in memory. */
  function InitialData(disk: DiskFile, current: map<string, JsValue>): (r: map<string, JsValue>)
    ensures disk.Text? && disk.parsed.Some? ==> r == disk.parsed.value
    ensures !(disk.Text? && disk.parsed.Some?) ==> r == current
  {
    if disk.Text? && disk.parsed.Some? then disk.parsed.value else current
  }

  /** After a write, the next load of the file sees exactly what was written. */
  lemma WriteThenLoad(data: map<string, JsValue>, stale: map<string, JsValue>)
    ensures InitialData(Written(data), stale) == data
  {
  }
}
