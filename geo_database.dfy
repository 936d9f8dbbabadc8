/** The GeoIP country database, held in one LookupService that every instance of
    the module shares (both it and its marker are static fields), and the rule by
    which refreshDatabase loads and reloads it. */
module GeoDatabase {
  import opened Java

  /** A country as the lookup service reports it. */
  datatype Country = Country(code: string, name: string)

  /** What the lookup service answers for an address it has no entry for. */
  const UnknownCountry := Country("--", "N/A")

  /** The database file: its contents are the country table it holds, by address. */
  type DatabaseFile = Snapshot<map<string, Country>>

  /** A LookupService in memory-cache mode: the table read when it was created,
      whether close() has been called on it since, and which construction made it
      (1 for the first handle, one more for each handle that replaces it), so that
      a new handle is told apart from the old one even when both read the same
      table. */
  datatype LookupService = LookupService(table: map<string, Country>, open: bool, generation: nat)
  {
    /** getCountry: the country of the address, or the unknown country. */
    function GetCountry(ipAddress: string): Country
    {
      if ipAddress in table then table[ipAddress] else UnknownCountry
    }
  }

  /** The two static fields: the handle (null before the first successful load) and
      the marker of the version loaded. */
  datatype DatabaseState = DatabaseState(cl: Option<LookupService>, lastModified: int)

  /** The state after loading the class: no handle, marker 0. */
  const Initial := DatabaseState(None, 0)

  /** refreshDatabase, as a function of the state before, the file and the clock:
      with no handle the marker takes the file's lastModified() and a handle is made
      when the file opens; with a handle and a marker that differs from
      lastModified(), the marker takes the current time, the old handle is closed
      and a new one replaces it when the file opens; otherwise nothing changes. A
      file that does not open throws from the LookupService constructor, so the
      handle keeps its previous value. */
  function Refreshed(s: DatabaseState, file: DatabaseFile, now: int): DatabaseState
  {
    if s.cl.None? then
      DatabaseState(if file.CanOpen() then Some(LookupService(file.contents, true, 1)) else None,
                    file.LastModified())
    else if s.lastModified != file.LastModified() then
      var closed := s.cl.value.(open := false);
      DatabaseState(if file.CanOpen() then Some(LookupService(file.contents, true, closed.generation + 1))
                    else Some(closed),
                    now)
    else s
  }

  /** The shared database: one object that every module instance refers to. */
  class SharedDatabase {
    var cl: Option<LookupService>
    var databaseLastModified: int

    function State(): DatabaseState
      reads this
    {
      DatabaseState(cl, databaseLastModified)
    }

    constructor ()
      ensures State() == Initial
    {
      cl := None;
      databaseLastModified := 0;
    }

    /** refreshDatabase. */
    method Refresh(file: DatabaseFile, now: int)
      modifies this
      ensures State() == Refreshed(old(State()), file, now)
    {
      if cl.None? {
        databaseLastModified := file.LastModified();
        if file.CanOpen() {
          cl := Some(LookupService(file.contents, true, 1));
        }
      } else if databaseLastModified != file.LastModified() {
        databaseLastModified := file.LastModified();
        databaseLastModified := now;
        cl := Some(cl.value.(open := false));
        if file.CanOpen() {
          cl := Some(LookupService(file.contents, true, cl.value.generation + 1));
        }
      }
    }
  }

  /** Once a handle exists it is never lost again; a refresh that finds the handle
      missing makes one exactly when the file opens, and takes the file's
      lastModified() as the marker either way; a reload takes the clock as the marker
      and, when the file does not open, keeps the old handle, closed. */
  lemma HandleKept(s: DatabaseState, file: DatabaseFile, now: int)
    ensures s.cl.Some? ==> Refreshed(s, file, now).cl.Some?
    ensures s.cl.None? ==> (Refreshed(s, file, now).cl.Some? <==> file.CanOpen())
    ensures s.cl.None? ==> Refreshed(s, file, now).lastModified == file.LastModified()
    ensures s.cl.Some? && s.lastModified != file.LastModified() ==>
              && Refreshed(s, file, now).lastModified == now
              && (!file.CanOpen() ==> Refreshed(s, file, now).cl == Some(s.cl.value.(open := false)))
  {
  }

  /** A handle that serves the file it was made from, with a marker equal to the
      file's lastModified(), is left alone by every later refresh. */
  lemma FirstLoadIsStable(file: DatabaseFile, now1: int, now2: int)
    requires file.CanOpen()
    ensures Refreshed(Initial, file, now1) == DatabaseState(Some(LookupService(file.contents, true, 1)), file.mtime)
    ensures Refreshed(Refreshed(Initial, file, now1), file, now2) == Refreshed(Initial, file, now1)
  {
  }

  /** With a handle, a refresh replaces it by a new one exactly when the marker
      differs from the file's lastModified() and the file opens; when the marker
      equals lastModified(), nothing changes at all. */
  lemma ReloadIffChanged(s: DatabaseState, file: DatabaseFile, now: int)
    requires s.cl.Some?
    ensures Refreshed(s, file, now).cl.Some?
    ensures Refreshed(s, file, now).cl.value.generation != s.cl.value.generation <==>
              s.lastModified != file.LastModified() && file.CanOpen()
    ensures s.lastModified == file.LastModified() ==> Refreshed(s, file, now) == s
  {
  }

  /** A refresh that reloads sets the marker to the clock and not to the file's
      lastModified(); so unless the clock happens to equal that time, the next
      refresh of the same, unchanged file closes the handle and loads the file again. */
  lemma ReloadRepeats(s: DatabaseState, file: DatabaseFile, now1: int, now2: int)
    requires s.cl.Some? && s.lastModified != file.LastModified()
    requires file.CanOpen() && now1 != file.mtime
    ensures Refreshed(s, file, now1) ==
              DatabaseState(Some(LookupService(file.contents, true, s.cl.value.generation + 1)), now1)
    ensures Refreshed(Refreshed(s, file, now1), file, now2) ==
              DatabaseState(Some(LookupService(file.contents, true, s.cl.value.generation + 2)), now2)
  {
    var t := Refreshed(s, file, now1);
    assert t.cl.Some? && t.lastModified == now1;
    assert t.lastModified != file.LastModified();
  }

  /** The refreshes of one connection after another, each at its own clock reading. */
  function RefreshEach(s: DatabaseState, file: DatabaseFile, nows: seq<int>): DatabaseState
    decreases |nows|
  {
    if nows == [] then s else RefreshEach(Refreshed(s, file, nows[0]), file, nows[1..])
  }

  /** So it goes on: while the file stays the same and no clock reading equals its
      lastModified(), every refresh after a reload loads the file once more. */
  lemma {:induction false} ReloadsForever(s: DatabaseState, file: DatabaseFile, nows: seq<int>)
    requires s.cl.Some? && s.lastModified != file.LastModified() && file.CanOpen()
    requires forall i :: 0 <= i < |nows| ==> nows[i] != file.mtime
    ensures RefreshEach(s, file, nows).cl.Some?
    ensures RefreshEach(s, file, nows).cl.value.generation == s.cl.value.generation + |nows|
    ensures RefreshEach(s, file, nows).cl.value.table == (if nows == [] then s.cl.value.table else file.contents)
    decreases |nows|
  {
    if nows != [] {
      var t := Refreshed(s, file, nows[0]);
      assert t.lastModified == nows[0];
      forall i | 0 <= i < |nows[1..]| ensures nows[1..][i] != file.mtime {
        assert nows[1..][i] == nows[i + 1];
      }
      ReloadsForever(t, file, nows[1..]);
    }
  }

  /** The handle answers from the table of the file currently on disk. */
  predicate Current(s: DatabaseState, file: DatabaseFile)
  {
    s.cl.Some? && s.cl.value.table == file.contents
  }

  /** A refresh of an unchanged file keeps a current handle current; the handle stays
      open unless the refresh reloaded it from a file that does not open. */
  lemma CurrentPreserved(s: DatabaseState, file: DatabaseFile, now: int)
    requires Current(s, file) && s.cl.value.open
    ensures Current(Refreshed(s, file, now), file)
    ensures Refreshed(s, file, now).cl.value.open <==> s.lastModified == file.LastModified() || file.CanOpen()
  {
  }

  /** Every answer of a refreshed handle comes from the file: after a refresh that
      opened the file, getCountry gives the file's entry or the unknown country. */
  lemma LookupAfterLoad(s: DatabaseState, file: DatabaseFile, now: int, ipAddress: string)
    requires file.CanOpen()
    requires s.cl.None? || s.lastModified != file.LastModified()
    ensures Refreshed(s, file, now).cl.Some?
    ensures Refreshed(s, file, now).cl.value.GetCountry(ipAddress) ==
              if ipAddress in file.contents then file.contents[ipAddress] else UnknownCountry
  {
  }
}
