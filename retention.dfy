/** `cleanup()`: once the retention setting is on and a day has passed
    since `LAST_CLEANUP`, delete every `.json` file under `../data/` that
    is strictly older than the threshold. */
module Retention {
  import opened Common
  import opened Storage
  import opened Config

  const SecondsPerDay: real := 86400.0

  /** The guard: the setting is on (non-zero) and a full day has passed
      since the last sweep. */
  predicate SweepDue(days: nat, lastCleanup: real, now: real) {
    days != 0 && now - lastCleanup >= SecondsPerDay
  }

  /** A file the sweep removes: under `../data/`, named `*.json`, and older
      than `days` days, strictly. The test is on the file name, so an
      attachment called `*.json` qualifies as well as a record. */
  predicate Expired(p: Path, e: Entry, now: real, days: nat) {
    StartsWith(p, DataRoot) && EndsWith(p, ".json") && now - e.mtime > days as real * SecondsPerDay
  }

  /** The files left after `cleanup()` at time `now`. */
  function Swept(files: map<Path, Entry>, now: real, days: nat, lastCleanup: real): map<Path, Entry> {
    if !SweepDue(days, lastCleanup, now) then files
    else map p | p in files && !Expired(p, files[p], now, days) :: files[p]
  }

  /** The sweep itself. The order in which `os.walk` visits the files is
      left open: any order gives the same result. `LAST_CLEANUP` is read
      but never written, so `settings` is not modified. */
  method Cleanup(settings: Settings, disk: DataDir, now: real)
    modifies disk
    ensures disk.files == Swept(old(disk.files), now, settings.deleteOlderThanDays, settings.lastCleanup)
    ensures disk.dirs == old(disk.dirs)
  {
    var days := settings.deleteOlderThanDays;
    if days == 0 || now - settings.lastCleanup < SecondsPerDay {
      return;
    }
    ghost var start := disk.files;
    var todo := disk.files.Keys;
    while todo != {}
      invariant todo <= start.Keys
      invariant disk.files == map p | p in start && (p in todo || !Expired(p, start[p], now, days)) :: start[p]
      invariant disk.dirs == old(disk.dirs)
      decreases todo
    {
      var p :| p in todo;
      if StartsWith(p, DataRoot) && EndsWith(p, ".json") {
        var modified := disk.files[p].mtime;
        if now - modified > days as real * SecondsPerDay {
          disk.Remove(p);
        }
      }
      todo := todo - {p};
    }
  }

  // ---------------------------------------------------------------------
  // Properties of the sweep

  /** A file survives the sweep iff it is there and the sweep is not due or
      the file has not expired; a surviving file is unchanged. */
  lemma SweptExactly(files: map<Path, Entry>, now: real, days: nat, lastCleanup: real, p: Path)
    ensures p in Swept(files, now, days, lastCleanup) <==>
      p in files && (!SweepDue(days, lastCleanup, now) || !Expired(p, files[p], now, days))
    ensures p in Swept(files, now, days, lastCleanup) ==> Swept(files, now, days, lastCleanup)[p] == files[p]
  {
  }

  /** With the setting off, or within a day of the last sweep, nothing is
      removed. */
  lemma SweepOffOrEarly(files: map<Path, Entry>, now: real, days: nat, lastCleanup: real)
    requires days == 0 || now - lastCleanup < SecondsPerDay
    ensures Swept(files, now, days, lastCleanup) == files
  {
  }

  /** Files not named `*.json`, and files outside `../data/`, are never
      removed, whatever their age. */
  lemma SweepKeepsOthers(files: map<Path, Entry>, now: real, days: nat, lastCleanup: real, p: Path)
    requires p in files
    requires !EndsWith(p, ".json") || !StartsWith(p, DataRoot)
    ensures p in Swept(files, now, days, lastCleanup)
    ensures Swept(files, now, days, lastCleanup)[p] == files[p]
  {
  }

  /** The sweep only removes: it adds no path and changes no entry. */
  lemma SweptIsSubmap(files: map<Path, Entry>, now: real, days: nat, lastCleanup: real)
    ensures Swept(files, now, days, lastCleanup).Keys <= files.Keys
    ensures forall p | p in Swept(files, now, days, lastCleanup) :: Swept(files, now, days, lastCleanup)[p] == files[p]
  {
  }

  /** Since `LAST_CLEANUP` is never advanced, a second sweep at the same
      time is due again, and finds nothing more to remove. */
  lemma SweepIdempotent(files: map<Path, Entry>, now: real, days: nat, lastCleanup: real)
    ensures Swept(Swept(files, now, days, lastCleanup), now, days, lastCleanup) == Swept(files, now, days, lastCleanup)
  {
    var once := Swept(files, now, days, lastCleanup);
    if SweepDue(days, lastCleanup, now) {
      var twice := Swept(once, now, days, lastCleanup);
      assert twice.Keys == once.Keys;
    }
  }

  /** Because `LAST_CLEANUP` stays where it was, a sweep that was due stays
      due at every later call, and a second sweep soon after the first is
      not a no-op: it removes whatever has expired in between, exactly as a
      single sweep at the later time would. Nothing limits the sweep to
      once a day. */
  lemma SweepNotRateLimited(files: map<Path, Entry>, days: nat, lastCleanup: real, now: real, later: real)
    requires SweepDue(days, lastCleanup, now) && now <= later
    ensures SweepDue(days, lastCleanup, later)
    ensures Swept(Swept(files, now, days, lastCleanup), later, days, lastCleanup) == Swept(files, later, days, lastCleanup)
  {
  }

  /** The threshold is strict: a record exactly `days` days old stays. */
  lemma ExactAgeKept(files: map<Path, Entry>, now: real, days: nat, lastCleanup: real, p: Path)
    requires p in files && files[p].mtime == now - days as real * SecondsPerDay
    ensures p in Swept(files, now, days, lastCleanup)
  {
  }

  /** Everything the handler writes at time `now` survives a sweep at the
      same time. */
  lemma FreshFilesSurvive(files: map<Path, Entry>, now: real, days: nat, lastCleanup: real, p: Path)
    requires p in files && files[p].mtime == now
    ensures p in Swept(files, now, days, lastCleanup)
  {
  }

  /** With a 30-day threshold, a due sweep removes a 40-day-old record and
      keeps a 10-day-old and a 1-day-old one. */
  lemma ThirtyDayThreshold(files: map<Path, Entry>, now: real, lastCleanup: real, p: Path)
    requires now - lastCleanup >= SecondsPerDay
    requires p in files && StartsWith(p, DataRoot) && EndsWith(p, ".json")
    ensures files[p].mtime == now - 40.0 * SecondsPerDay ==> p !in Swept(files, now, 30, lastCleanup)
    ensures files[p].mtime == now - 10.0 * SecondsPerDay ==> p in Swept(files, now, 30, lastCleanup)
    ensures files[p].mtime == now - 1.0 * SecondsPerDay ==> p in Swept(files, now, 30, lastCleanup)
  {
    SweptExactly(files, now, 30, lastCleanup, p);
  }

  /** An attachment whose name ends in `.json` is removed like a record
      once it is old enough. */
  lemma JsonAttachmentSwept(em: string, base: string, name: string, content: Bytes, now: real, days: nat, lastCleanup: real)
    requires SweepDue(days, lastCleanup, now)
    requires EndsWith(name, ".json")
    ensures var p := AttachmentPath(em, base, name);
      var files := map[p := Entry(Blob(content), now - days as real * SecondsPerDay - 1.0)];
      Swept(files, now, days, lastCleanup) == map[]
  {
    var p := AttachmentPath(em, base, name);
    assert p == DataRoot + (em + "/attachments/" + base + "-" + name);
    assert p[|p| - 5..] == name[|name| - 5..];
  }
}
