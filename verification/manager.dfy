/** The notification throttle: the persisted record of configuration values,
    the day's email counter and the schedule of the overdue-notice task. The
    record lives in a JSON file; here it is the object's fields, and reading
    or writing the file is not modelled. Dates are day numbers (the
    `yyyy-mm-dd` of an instant is its UTC day). */
module EmailManager {
  import opened Base
  import opened Calendar

  datatype TaskStatus = SUCCESS | FAILED

  /** Every value of the record except the email block. */
  datatype Config = Config(
    loanDuration: int,
    postponeLoanDuration: int,
    maxBooksLimit: int,
    startLoanLimit: int,
    mainEmailInterval: int,
    retryEmailInterval: int,
    dailyEmailLimit: int)

  datatype EmailBlock = EmailBlock(date: int, emailCount: int, lastVerifyRun: int, status: TaskStatus)

  datatype ConfigData = ConfigData(config: Config, email: EmailBlock)

  /** `resetData`: the record written when the file is missing. The last run
      is put at the Unix epoch, day 0. */
  function InitialData(today: int): (d: ConfigData)
    ensures d.config.dailyEmailLimit == 99 && d.email.emailCount == 0 && d.email.date == today
    ensures d.email.lastVerifyRun == 0 && d.email.status == FAILED
  {
    ConfigData(Config(7, 7, 3, 3, 5, 1, 99), EmailBlock(today, 0, 0, FAILED))
  }

  /** The keys a settings form sends; an absent key keeps its value. */
  datatype ConfigPatch = ConfigPatch(
    loanDuration: Option<int>,
    postponeLoanDuration: Option<int>,
    maxBooksLimit: Option<int>,
    startLoanLimit: Option<int>,
    mainEmailInterval: Option<int>,
    retryEmailInterval: Option<int>,
    dailyEmailLimit: Option<int>)

  function Pick(v: Option<int>, current: int): int {
    if v.Some? then v.value else current
  }

  /** After a merge, `value` is the patch's value `v` when given, else `current`. */
  predicate Patched(value: int, v: Option<int>, current: int) {
    (v.Some? ==> value == v.value) && (v.None? ==> value == current)
  }

  /** `Object.assign(data, config)` restricted to the configuration keys. */
  function Merge(c: Config, p: ConfigPatch): (r: Config)
    ensures Patched(r.loanDuration, p.loanDuration, c.loanDuration)
    ensures Patched(r.postponeLoanDuration, p.postponeLoanDuration, c.postponeLoanDuration)
    ensures Patched(r.maxBooksLimit, p.maxBooksLimit, c.maxBooksLimit)
    ensures Patched(r.startLoanLimit, p.startLoanLimit, c.startLoanLimit)
    ensures Patched(r.mainEmailInterval, p.mainEmailInterval, c.mainEmailInterval)
    ensures Patched(r.retryEmailInterval, p.retryEmailInterval, c.retryEmailInterval)
    ensures Patched(r.dailyEmailLimit, p.dailyEmailLimit, c.dailyEmailLimit)
  {
    Config(
      Pick(p.loanDuration, c.loanDuration),
      Pick(p.postponeLoanDuration, c.postponeLoanDuration),
      Pick(p.maxBooksLimit, c.maxBooksLimit),
      Pick(p.startLoanLimit, c.startLoanLimit),
      Pick(p.mainEmailInterval, c.mainEmailInterval),
      Pick(p.retryEmailInterval, c.retryEmailInterval),
      Pick(p.dailyEmailLimit, c.dailyEmailLimit))
  }

  /** Saving the same settings twice is the same as once; saving nothing
      changes nothing; a full form replaces every value. */
  lemma MergeLaws(c: Config, p: ConfigPatch, v: Config)
    ensures Merge(Merge(c, p), p) == Merge(c, p)
    ensures Merge(c, ConfigPatch(None, None, None, None, None, None, None)) == c
    ensures Merge(c, ConfigPatch(Some(v.loanDuration), Some(v.postponeLoanDuration), Some(v.maxBooksLimit),
                                 Some(v.startLoanLimit), Some(v.mainEmailInterval), Some(v.retryEmailInterval),
                                 Some(v.dailyEmailLimit))) == v
  {
  }

  /** `incrementEmailCount` on a record: whether it succeeds and the record
      after. The limit is checked first and the day rolled over after, so a
      counter at the limit is never reset (see `LimitReachedIsPermanent`). */
  function Increment(d: ConfigData, today: int): (r: (bool, ConfigData))
    ensures !r.0 <==> d.email.emailCount >= d.config.dailyEmailLimit
    ensures !r.0 ==> r.1 == d
    ensures r.0 ==> (r.1.config == d.config && r.1.email.date == today
                     && r.1.email.lastVerifyRun == d.email.lastVerifyRun && r.1.email.status == d.email.status)
    ensures r.0 && d.email.date == today ==> r.1.email.emailCount == d.email.emailCount + 1
    ensures r.0 && d.email.date != today ==> r.1.email.emailCount == 1
  {
    if d.email.emailCount >= d.config.dailyEmailLimit then (false, d)
    else
      var e := if d.email.date != today then d.email.(date := today, emailCount := 0) else d.email;
      (true, d.(email := e.(emailCount := e.emailCount + 1)))
  }

  /** A counter within the limit stays within it. */
  lemma IncrementKeepsLimit(d: ConfigData, today: int)
    requires 0 <= d.email.emailCount <= d.config.dailyEmailLimit
    ensures Increment(d, today).1.email.emailCount <= d.config.dailyEmailLimit
  {
  }

  /** Once the counter reaches the limit, every later day is refused too and
      the record never changes: the day is not rolled over. */
  lemma LimitReachedIsPermanent(d: ConfigData, later: int)
    requires d.email.emailCount >= d.config.dailyEmailLimit
    ensures Increment(d, later) == (false, d)
  {
  }

  /** The intended counter: roll a new day over first, then check the limit. */
  function IncrementRollingOver(d: ConfigData, today: int): (r: (bool, ConfigData))
    ensures r.0 ==> r.1.email.date == today && r.1.email.emailCount <= d.config.dailyEmailLimit
    ensures !r.0 ==> r.1.config == d.config && r.1.email.emailCount >= d.config.dailyEmailLimit
  {
    var e := if d.email.date != today then d.email.(date := today, emailCount := 0) else d.email;
    if e.emailCount >= d.config.dailyEmailLimit then (false, d.(email := e))
    else (true, d.(email := e.(emailCount := e.emailCount + 1)))
  }

  /** With the rollover first, a new day always accepts an email when the
      limit is positive, whatever the counter was. */
  lemma NewDayAccepted(d: ConfigData, today: int)
    requires d.email.date != today && d.config.dailyEmailLimit >= 1
    ensures IncrementRollingOver(d, today).0
    ensures IncrementRollingOver(d, today).1.email.emailCount == 1
  {
  }

  /** `updateTaskStatus`. */
  function WithTaskStatus(d: ConfigData, today: int, success: bool): (r: ConfigData)
    ensures r.config == d.config && r.email.date == d.email.date && r.email.emailCount == d.email.emailCount
    ensures r.email.lastVerifyRun == today && (r.email.status == SUCCESS <==> success)
  {
    d.(email := d.email.(lastVerifyRun := today, status := if success then SUCCESS else FAILED))
  }

  /** Recording the same outcome twice on one day is the same as once. */
  lemma TaskStatusIdempotent(d: ConfigData, today: int, success: bool)
    ensures WithTaskStatus(WithTaskStatus(d, today, success), today, success) == WithTaskStatus(d, today, success)
  {
  }

  /** Whole days between the last successful run and now: the last run is
      midnight UTC of its day, so this is a difference of day numbers. */
  function DaysSince(lastRun: int, now: Instant): (n: int)
    ensures n == DayOf(now) - lastRun
  {
    (now - lastRun * DayMs) / DayMs
  }

  class Manager {
    var config: Config
    var date: int
    var emailCount: int
    var lastVerifyRun: int
    var status: TaskStatus

    function Data(): ConfigData
      reads this
    {
      ConfigData(config, EmailBlock(date, emailCount, lastVerifyRun, status))
    }

    /** `new Manager()`: the stored record, or the initial one when there is no file. */
    constructor (stored: Option<ConfigData>, now: Instant)
      ensures stored.Some? ==> Data() == stored.value
      ensures stored.None? ==> Data() == InitialData(DayOf(now))
    {
      var d := if stored.Some? then stored.value else InitialData(DayOf(now));
      config := d.config;
      date, emailCount, lastVerifyRun, status := d.email.date, d.email.emailCount, d.email.lastVerifyRun, d.email.status;
    }

    /** `resetData`. */
    method ResetData(now: Instant)
      modifies this
      ensures Data() == InitialData(DayOf(now))
    {
      var d := InitialData(DayOf(now));
      config := d.config;
      date, emailCount, lastVerifyRun, status := d.email.date, d.email.emailCount, d.email.lastVerifyRun, d.email.status;
    }

    /** `getConfig`: the record without its email block. */
    function GetConfig(): (c: Config)
      reads this
      ensures c == Data().config
    {
      config
    }

    /** `setConfig`: the given keys are merged; the email block is untouched. */
    method SetConfig(patch: ConfigPatch)
      modifies this
      ensures GetConfig() == Merge(old(GetConfig()), patch)
      ensures Data().email == old(Data().email)
    {
      config := Merge(config, patch);
    }

    /** `incrementEmailCount`. */
    method IncrementEmailCount(now: Instant) returns (ok: bool)
      modifies this
      ensures (ok, Data()) == Increment(old(Data()), DayOf(now))
    {
      var today := DayOf(now);
      if emailCount >= config.dailyEmailLimit {
        return false;
      }
      if date != today {
        date := today;
        emailCount := 0;
      }
      emailCount := emailCount + 1;
      ok := true;
    }

    /** The counter with the day rolled over before the limit is checked. */
    method IncrementEmailCountRollingOver(now: Instant) returns (ok: bool)
      modifies this
      ensures (ok, Data()) == IncrementRollingOver(old(Data()), DayOf(now))
    {
      var today := DayOf(now);
      if date != today {
        date := today;
        emailCount := 0;
      }
      if emailCount >= config.dailyEmailLimit {
        return false;
      }
      emailCount := emailCount + 1;
      ok := true;
    }

    /** `getRemainingEmails`: no day rollover here either. */
    function GetRemainingEmails(): (n: int)
      reads this
      ensures n + Data().email.emailCount == Data().config.dailyEmailLimit
    {
      config.dailyEmailLimit - emailCount
    }

    /** `shouldNotifyUsers`: the main interval has passed since the last
        successful run, or the last run failed and the retry interval has
        passed. */
    function ShouldNotifyUsers(now: Instant): (r: bool)
      reads this
      ensures r <==> (DayOf(now) - lastVerifyRun >= config.mainEmailInterval
                      || (status == FAILED && DayOf(now) - lastVerifyRun >= config.retryEmailInterval))
    {
      var diffDays := DaysSince(lastVerifyRun, now);
      if diffDays >= config.mainEmailInterval then true
      else status == FAILED && diffDays >= config.retryEmailInterval
    }

    /** `updateTaskStatus`. */
    method UpdateTaskStatus(now: Instant, success: bool)
      modifies this
      ensures Data() == WithTaskStatus(old(Data()), DayOf(now), success)
    {
      lastVerifyRun := DayOf(now);
      status := if success then SUCCESS else FAILED;
    }
  }

  /** Right after a successful run the overdue notice is not due again the same day
      unless the main interval is zero or less. */
  lemma NotDueAfterSuccess(d: ConfigData, now: Instant)
    requires d.config.mainEmailInterval > 0
    ensures var e := WithTaskStatus(d, DayOf(now), true);
      !(DaysSince(e.email.lastVerifyRun, now) >= e.config.mainEmailInterval
        || (e.email.status == FAILED && DaysSince(e.email.lastVerifyRun, now) >= e.config.retryEmailInterval))
  {
  }
}
