/** The diary store's session (`States` in src-tauri/src/lib.rs) and its five
    commands. The session is Locked while its connection slot is empty and
    Unlocked once a password has been verified; nothing locks it again. */
module DiarySession {
  import opened Ordering
  import opened DiaryQueries

  datatype Option<T> = None | Some(value: T)

  class Session {
    /** The connection slot: None while Locked; once Unlocked, the `diary`
        table as the open connection sees it. */
    var db: Option<Table>
    /** The `diary` table held in the database file at the session's path. */
    var disk: Table
    /** Whether a password decrypts the database file (decided by the
        encryption layer, which is not part of this model). */
    const decrypts: string -> bool

    /** An open connection reads and writes the file itself. */
    ghost predicate Valid()
      reads this
    {
      db.Some? ==> db.value == disk
    }

    /** A fresh session, as the application creates it at start-up: no
        connection, over a file holding `file`. */
    constructor (file: Table, decrypts: string -> bool)
      ensures Valid()
      ensures db == None && disk == file && this.decrypts == decrypts
    {
      db := None;
      disk := file;
      this.decrypts := decrypts;
    }

    /** `open_and_list_dates`. `fileOpens` is whether the file system lets the
        database file be opened. Setting the key never reports an error;
        only the verification query tells a wrong password, and only a
        verified connection is put in the slot, replacing any earlier one.
        On success the result is the list an empty search gives: every
        stored date, most recent first. */
    method Unlock(password: string, fileOpens: bool) returns (r: Result<seq<int>>)
      requires Valid()
      modifies this`db
      ensures Valid()
      ensures !fileOpens ==> r == Err(OpenFailed) && db == old(db)
      ensures fileOpens && !decrypts(password) ==> r == Err(WrongPassword) && db == old(db)
      ensures fileOpens && decrypts(password) ==> db == Some(disk) && r == Ok(Select(disk, ""))
      ensures r.Ok? ==> r.value == SortDesc(disk.Keys)
    {
      if !fileOpens {
        return Err(OpenFailed);
      }
      // `PRAGMA key` is accepted whatever the password; its outcome is discarded.
      if !decrypts(password) {
        return Err(WrongPassword);
      }
      db := Some(disk);
      r := FetchDates(db.value, "");
      SelectEmptyQuery(disk);
    }

    /** `search_diary`: the dates whose decimal text or content contains the
        query, ignoring ASCII case, most recent first. */
    method Search(query: string) returns (r: Result<seq<int>>)
      ensures db.None? ==> r == Err(NotUnlocked)
      ensures db.Some? ==> r == Ok(Select(db.value, query))
    {
      if db.None? {
        return Err(NotUnlocked);
      }
      r := FetchDates(db.value, query);
    }

    /** `get_diary_content`: the stored content of `date` as it was saved. */
    method Get(date: int) returns (r: Result<string>)
      ensures db.None? ==> r == Err(NotUnlocked)
      ensures db.Some? && date !in db.value ==> r == Err(ReadFailed)
      ensures db.Some? && date in db.value ==> r == Ok(db.value[date])
    {
      if db.None? {
        return Err(NotUnlocked);
      }
      r := Lookup(db.value, date);
    }

    /** `save_diary_content`: creates the entry of `date` or overwrites its content. */
    method Save(date: int, content: string) returns (r: Result<()>)
      requires Valid()
      modifies this
      ensures Valid()
      ensures old(db).None? ==> r == Err(NotUnlocked) && db == old(db) && disk == old(disk)
      ensures old(db).Some? ==> r == Ok(()) && disk == Upsert(old(disk), date, content) && db == Some(disk)
    {
      if db.None? {
        return Err(NotUnlocked);
      }
      disk := Upsert(disk, date, content);
      db := Some(disk);
      r := Ok(());
    }

    /** `delete_diary`: removes the entry of `date`; succeeds also when there is none. */
    method Delete(date: int) returns (r: Result<()>)
      requires Valid()
      modifies this
      ensures Valid()
      ensures old(db).None? ==> r == Err(NotUnlocked) && db == old(db) && disk == old(disk)
      ensures old(db).Some? ==> r == Ok(()) && disk == Remove(old(disk), date) && db == Some(disk)
    {
      if db.None? {
        return Err(NotUnlocked);
      }
      disk := Remove(disk, date);
      db := Some(disk);
      r := Ok(());
    }
  }
}
