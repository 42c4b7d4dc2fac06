/** The periodic cleaner of abandoned `.part` files, and why it never takes the
    file of a session that has not expired. */
module UploadCleanup {
  import opened Common

  /** What readdir and stat report; `openable` is the probe of `isLikelyOpen`. */
  datatype Entry = Entry(isFile: bool, partSuffix: bool, statOk: bool, mtimeMs: int, atimeMs: int, openable: bool)

  const HOUR_MS := 3600 * 1000

  /** `toInt`: an absent, non-numeric or non-positive setting gives the fallback. */
  function ToNumber(val: Option<real>, fallback: real): real {
    if val.Some? && val.value > 0.0 then val.value else fallback
  }

  function CeilReal(x: real): int {
    -((-x).Floor)
  }

  function MaxReal(a: real, b: real): real {
    if a < b then b else a
  }

  /** `maxAgeHours`: the setting, but at least the TTL rounded up to hours, plus one. */
  function MaxAgeHours(setting: Option<real>, ttlSeconds: int): real {
    var minFromTtl := CeilReal(ttlSeconds as real / 3600.0) + 1;
    MaxReal(ToNumber(setting, 6.0), minFromTtl as real)
  }

  function MaxAgeMs(setting: Option<real>, ttlSeconds: int): real {
    MaxAgeHours(setting, ttlSeconds) * 3600.0 * 1000.0
  }

  /** For h the TTL in hours, rounded up: the larger of the setting (6 by default) and h + 1. */
  lemma MaxAgeMeaning(setting: Option<real>, ttlSeconds: int, h: int)
    requires h as real - 1.0 < ttlSeconds as real / 3600.0 <= h as real
    ensures var hours := if setting.Some? && setting.value > 0.0 then setting.value else 6.0;
            MaxAgeMs(setting, ttlSeconds) == (if hours < (h + 1) as real then (h + 1) as real else hours) * 3600000.0
  {
    var x := ttlSeconds as real / 3600.0;
    assert (-x).Floor == -h;
  }

  function LastTouched(e: Entry): int {
    var m := if e.mtimeMs < e.atimeMs then e.atimeMs else e.mtimeMs;
    if m != 0 then m else e.mtimeMs
  }

  predicate Stale(now: int, e: Entry, maxAgeMs: real) {
    (now - LastTouched(e)) as real > maxAgeMs
  }

  predicate Removes(now: int, e: Entry, maxAgeMs: real) {
    e.isFile && e.partSuffix && e.statOk && Stale(now, e, maxAgeMs) && e.openable
  }

  /** The files that are not stale `.part` files. */
  function Kept(files: map<string, Entry>, now: int, maxAgeMs: real): map<string, Entry> {
    map n | n in files && !Removes(now, files[n], maxAgeMs) :: files[n]
  }

  /** How much later than the file a session's clock reading may be taken. */
  function Slack(setting: Option<real>, ttlSeconds: int): real {
    MaxAgeMs(setting, ttlSeconds) - (ttlSeconds * 1000) as real
  }

  /** The rounding and the extra hour leave at least an hour of slack, for every TTL and setting. */
  lemma {:induction false} SlackIsAnHour(setting: Option<real>, ttlSeconds: int)
    ensures Slack(setting, ttlSeconds) >= HOUR_MS as real
  {
    var h := ttlSeconds as real / 3600.0;
    assert CeilReal(h) as real >= h;
    assert MaxAgeHours(setting, ttlSeconds) >= h + 1.0;
    assert h * 3600.0 == ttlSeconds as real;
  }

  /** Beyond the slack there is an entry that goes too early. */
  lemma RemovedTooEarly(setting: Option<real>, ttlSeconds: int, fileTime: int, createdAt: int)
      returns (now: int, e: Entry)
    requires 0 < fileTime && (createdAt - fileTime) as real > Slack(setting, ttlSeconds)
    ensures LastTouched(e) == fileTime && Removes(now, e, MaxAgeMs(setting, ttlSeconds))
    ensures now <= createdAt + ttlSeconds * 1000
  {
    var age := MaxAgeMs(setting, ttlSeconds);
    now := fileTime + age.Floor + 1;
    e := Entry(true, true, true, fileTime, fileTime, true);
    assert (createdAt + ttlSeconds * 1000) as real > fileTime as real + age;
  }

  /** The cleaner spares every unexpired session exactly when `init` reads the clock
      within the slack after creating the file. A write only moves `LastTouched` on. */
  lemma SparesUnexpiredIff(setting: Option<real>, ttlSeconds: int, fileTime: int, createdAt: int)
    requires 0 < fileTime
    ensures (forall now, e :: LastTouched(e) >= fileTime && Removes(now, e, MaxAgeMs(setting, ttlSeconds))
                ==> now > createdAt + ttlSeconds * 1000)
            <==> (createdAt - fileTime) as real <= Slack(setting, ttlSeconds)
  {
    var age := MaxAgeMs(setting, ttlSeconds);
    var expiresAt := createdAt + ttlSeconds * 1000;
    if (createdAt - fileTime) as real <= Slack(setting, ttlSeconds) {
      forall now, e | LastTouched(e) >= fileTime && Removes(now, e, age) ensures now > expiresAt {
        assert now as real > LastTouched(e) as real + age;
      }
    } else {
      var now, e := RemovedTooEarly(setting, ttlSeconds, fileTime, createdAt);
    }
  }

  /** In particular: an hour between creating the file and reading the clock is harmless. */
  lemma {:induction false} SparesUnexpired(setting: Option<real>, ttlSeconds: int, fileTime: int, createdAt: int,
        now: int, e: Entry)
    requires 0 < fileTime && createdAt - fileTime <= HOUR_MS
    requires LastTouched(e) >= fileTime && Removes(now, e, MaxAgeMs(setting, ttlSeconds))
    ensures now > createdAt + ttlSeconds * 1000
  {
    SlackIsAnHour(setting, ttlSeconds);
    SparesUnexpiredIff(setting, ttlSeconds, fileTime, createdAt);
  }

  class UploadCleanup {
    const ttlSeconds: int
    const setting: Option<real>
    var running: bool
    var files: map<string, Entry>   // the first level of tmpRoot

    constructor (ttlSeconds: int, setting: Option<real>, files: map<string, Entry>)
      ensures this.ttlSeconds == ttlSeconds && this.setting == setting
      ensures this.files == files && !running
    {
      this.ttlSeconds, this.setting, this.files, this.running := ttlSeconds, setting, files, false;
    }

    /** `clean`: removes exactly the stale `.part` files and counts them. */
    method Clean(now: int) returns (removed: nat)
      modifies this`files
      ensures files == Kept(old(files), now, MaxAgeMs(setting, ttlSeconds))
      ensures forall n :: n in files ==> n in old(files) && files[n] == old(files)[n]
      ensures forall n :: n in old(files) ==>
                var e := old(files)[n];
                var touched := if e.mtimeMs < e.atimeMs && e.atimeMs != 0 then e.atimeMs else e.mtimeMs;
                n !in files <==>
                  && e.isFile && e.partSuffix && e.statOk && e.openable
                  && (now - touched) as real > MaxAgeMs(setting, ttlSeconds)
      ensures removed == |old(files)| - |files|
    {
      var maxAgeMs := MaxAgeMs(setting, ttlSeconds);
      ghost var before := files;
      var entries := files.Keys;
      removed := 0;
      while entries != {}
        invariant entries <= files.Keys && files.Keys <= before.Keys
        invariant forall n :: n in files ==> files[n] == before[n]
        invariant forall n :: n in before && n !in files ==> Removes(now, before[n], maxAgeMs)
        invariant forall n :: n in files && n !in entries ==> !Removes(now, before[n], maxAgeMs)
        invariant removed == |before| - |files|
        decreases entries
      {
        var n :| n in entries;
        var e := files[n];
        entries := entries - {n};
        if e.isFile && e.partSuffix && e.statOk {
          if Stale(now, e, maxAgeMs) && e.openable {
            assert (files - {n}).Keys == files.Keys - {n};
            files := files - {n};
            removed := removed + 1;
          }
        }
      }
      assert files == Kept(before, now, maxAgeMs);
    }

    /** The timer callback: skipped while a previous run is still going. */
    method Tick(now: int) returns (ran: bool)
      modifies this
      ensures ran <==> !old(running)
      ensures files == if ran then Kept(old(files), now, MaxAgeMs(setting, ttlSeconds)) else old(files)
      ensures running == old(running)
    {
      if running { return false; }
      running := true;
      var _ := Clean(now);
      running := false;
      ran := true;
    }
  }
}
