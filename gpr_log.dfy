/**
 * Log levels, the process-wide default level and the checks gpr_log_msg
 * makes before it writes anything.
 */
module Log {
  import opened Wrappers
  import opened GprErr
  import Builtin

  const DEBUG: int := 0
  const INFO: int := 1
  const WARNING: int := 2
  const ERROR: int := 3
  const CRITICAL: int := 4
  /** GPR_LOG_NUMBERS: number of real levels. */
  const NUMBERS: int := 5
  /** GPR_LOG_DEFAULT: "keep the current level" marker for configure. */
  const DEFAULT: int := 6
  /** GPR_LOG_MESSAGE_MAX_LEN: characters of one message, NUL excluded. */
  const MESSAGE_MAX_LEN: int := 512

  predicate ValidLevel(level: int)
  {
    0 <= level < NUMBERS
  }

  /** gpr_log_level_to_str: the level's name, "UNKNOWN" outside [0, GPR_LOG_NUMBERS). */
  function LevelToStr(level: int): (s: string)
    ensures level == DEBUG <==> s == "DEBUG"
    ensures level == INFO <==> s == "INFO"
    ensures level == WARNING <==> s == "WARNING"
    ensures level == ERROR <==> s == "ERROR"
    ensures level == CRITICAL <==> s == "CRITICAL"
    ensures !ValidLevel(level) <==> s == "UNKNOWN"
  {
    if level < 0 || level >= NUMBERS then "UNKNOWN"
    else ["DEBUG", "INFO", "WARNING", "ERROR", "CRITICAL"][level]
  }

  /** The module's global state, `Default_Log_Level`. */
  class Logger {
    var defaultLevel: int

    /** The default level starts at INFO. */
    constructor ()
      ensures defaultLevel == INFO
    {
      defaultLevel := INFO;
    }

    /**
     * gpr_log_configure. `filename` is None for NULL; `redirectOk` is
     * whether freopen succeeded (the redirection itself is not modelled).
     */
    method Configure(filename: Option<string>, level: int, redirectOk: bool) returns (e: Err)
      modifies this
      ensures filename.Some? && !redirectOk ==> e == Ko && defaultLevel == old(defaultLevel)
      ensures (filename.None? || redirectOk) && level == DEFAULT ==> e == Ok && defaultLevel == old(defaultLevel)
      ensures (filename.None? || redirectOk) && level != DEFAULT && !ValidLevel(level) ==>
                e == InvalidParameter && defaultLevel == old(defaultLevel)
      ensures (filename.None? || redirectOk) && ValidLevel(level) ==> e == Ok && defaultLevel == level
    {
      if filename.Some? {
        if !redirectOk {
          return Ko;
        }
        if level == DEFAULT {
          return Ok;
        }
      }
      if level != DEFAULT {
        if level < 0 || level >= NUMBERS {
          return InvalidParameter;
        }
        defaultLevel := level;
      }
      return Ok;
    }

    /**
     * Return value of gpr_log_msg. The NULL-ness of `file`, `func` and
     * `fmt` is given as flags; `dateLen` is what the clock helper returned
     * (0 on failure); `hdrLen` and `msgLen` are the untruncated lengths
     * vsnprintf reports for the header and the message body.
     */
    function MsgResult(level: int, fileNull: bool, line: int, funcNull: bool, fmtNull: bool,
                       dateLen: nat, hdrLen: int, msgLen: int): (r: int)
      reads this
      ensures fileNull || line < 0 || funcNull || fmtNull ==> r == -1
      ensures !(fileNull || line < 0 || funcNull || fmtNull) && level < defaultLevel ==> r == 0
      ensures r <= MESSAGE_MAX_LEN
      ensures r > 0 ==> level >= defaultLevel
    {
      if fileNull || line < 0 || funcNull || fmtNull then -1
      else if level < defaultLevel then 0
      else if dateLen == 0 then -1
      else
        var hdr := Builtin.ScnprintfResult(hdrLen, MESSAGE_MAX_LEN + 1);
        if hdr <= 0 then -1
        else
          var body := Builtin.ScnprintfResult(msgLen, MESSAGE_MAX_LEN + 1 - hdr);
          if body < 0 then -1 else hdr + body
    }
  }

  /**
   * The unit test's scenario: a DEBUG message is suppressed at the initial
   * level and goes through once DEBUG has been configured.
   */
  method DebugShownAfterConfigure() returns (before: int, e: Err, after: int)
    ensures before == 0
    ensures e == Ok
    ensures after > 0
  {
    var log := new Logger();
    before := log.MsgResult(DEBUG, false, 34, false, false, 23, 60, 10);
    e := log.Configure(None, DEBUG, true);
    after := log.MsgResult(DEBUG, false, 34, false, false, 23, 60, 10);
  }
}
