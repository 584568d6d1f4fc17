/**
 * Error codes, their names, and the complementary error message store
 * (the global `Cmpl_Err_Msg` buffer).
 */
module GprErr {
  import opened Wrappers
  import Builtin

  /**
   * Return codes of the library. OK and KO are the two codes whose names
   * the string table knows; the others are returned by the containers.
   */
  datatype Err = Ok | Ko | InvalidParameter | MemoryFailure | LoopDetected | NotImplemented

  /** Number of codes the string table covers (GPR_ERR_NUMBERS). */
  const ERR_NUMBERS: int := 2
  /** Capacity of the complementary message, NUL excluded. */
  const CMPL_ERR_MSG_LEN: nat := 512

  /** Name of a numeric error code: the table entry for codes in [0, GPR_ERR_NUMBERS), "UNKNOWN" otherwise. */
  function ErrToStr(code: int): (s: string)
    ensures code == 0 <==> s == "Success"
    ensures code == 1 <==> s == "Failure"
    ensures (code < 0 || code >= ERR_NUMBERS) <==> s == "UNKNOWN"
  {
    if code < 0 || code >= ERR_NUMBERS then "UNKNOWN"
    else ["Success", "Failure"][code]
  }

  /** The message a raise leaves behind for `msg` (NULL is None). */
  function Raised(buffer: Option<string>, msg: Option<string>): (b: Option<string>)
    ensures buffer.Some? && msg.Some? && msg.value != "" ==>
              b.Some? && b.value <= msg.value &&
              |b.value| == (if |msg.value| <= CMPL_ERR_MSG_LEN then |msg.value| else CMPL_ERR_MSG_LEN)
    ensures !(buffer.Some? && msg.Some? && msg.value != "") ==> b == buffer
  {
    if buffer.Some? && msg.Some? && msg.value != "" then
      Some(Builtin.Stored(msg.value, CMPL_ERR_MSG_LEN + 1))
    else buffer
  }

  /**
   * The module's global state: `buffer` is None while `Cmpl_Err_Msg` is
   * NULL, and otherwise holds the C string the buffer contains.
   */
  class ErrStore {
    var buffer: Option<string>

    /** At program start the buffer pointer is NULL. */
    constructor ()
      ensures buffer == None
    {
      buffer := None;
    }

    /**
     * gpr_err_allocate_cmpl_err: the buffer is (re)allocated; a failed
     * malloc leaves it NULL. `initial` stands for whatever the fresh block
     * happens to hold.
     */
    method Allocate(allocOk: bool, initial: string)
      modifies this
      ensures buffer == (if allocOk then Some(initial) else None)
    {
      buffer := if allocOk then Some(initial) else None;
    }

    /** gpr_err_get_cmpl_err: the stored message, or "" while no buffer is allocated. */
    function GetCmplErr(): (s: string)
      reads this
      ensures buffer.None? ==> s == ""
      ensures buffer.Some? ==> s == buffer.value
    {
      if buffer.None? then "" else buffer.value
    }

    /**
     * gpr_err_raise: returns `err` unchanged; stores `msg`, truncated to
     * CMPL_ERR_MSG_LEN characters, only when the buffer is allocated and
     * the message is non-NULL and non-empty.
     */
    method Raise(err: Err, msg: Option<string>) returns (r: Err)
      modifies this
      ensures r == err
      ensures buffer == Raised(old(buffer), msg)
    {
      if buffer.Some? && msg.Some? && msg.value != "" {
        buffer := Some(Builtin.Stored(msg.value, CMPL_ERR_MSG_LEN + 1));
      }
      r := err;
    }
  }
}
