/** The argument and configuration rules a call is checked against before it touches
    the store: which insert flags go together, where the append/prepend hints are legal,
    when direct access is allowed, which page sizes an environment accepts, and that
    recovery needs a durable medium. A refused call returns its status and changes
    nothing. */
module Flags {
  import opened Codes

  /** The duplicate position an insert asks for (HAM_DUPLICATE_INSERT_BEFORE, _AFTER,
      _FIRST, _LAST), or none. */
  datatype DupPosition = NoPosition | Before | After | First | Last

  /** The flags of an insert call: HAM_OVERWRITE, HAM_DUPLICATE, a duplicate position,
      HAM_HINT_APPEND and HAM_HINT_PREPEND. */
  datatype InsertFlags = InsertFlags(overwrite: bool, duplicate: bool, position: DupPosition,
                                     hintAppend: bool, hintPrepend: bool)

  const PlainInsert := InsertFlags(false, false, NoPosition, false, false)

  /** The call asks for a duplicate: HAM_DUPLICATE or one of the positions. */
  predicate WantsDuplicate(f: InsertFlags)
  {
    f.duplicate || f.position != NoPosition
  }

  /** The checks of ham_db_insert (viaCursor false) and ham_cursor_insert (viaCursor
      true). `keyFlagsKnown`/`recordFlagsKnown` say that the key and record structures
      carry no flag bits besides their USER_ALLOC bit. */
  function CheckInsert(f: InsertFlags, dupsEnabled: bool, viaCursor: bool,
                       keyFlagsKnown: bool, recordFlagsKnown: bool): (st: Status)
    ensures st == Ok || st == InvParameter
    ensures st == Ok ==> keyFlagsKnown && recordFlagsKnown
    ensures st == Ok ==> !(f.hintAppend && f.hintPrepend)
    ensures st == Ok && (f.hintAppend || f.hintPrepend) ==> viaCursor
    ensures st == Ok && WantsDuplicate(f) ==> dupsEnabled && !f.overwrite
    ensures st == Ok && f.position != NoPosition ==> viaCursor
    ensures (keyFlagsKnown && recordFlagsKnown && !(f.hintAppend && f.hintPrepend) &&
             ((f.hintAppend || f.hintPrepend) ==> viaCursor) &&
             (WantsDuplicate(f) ==> dupsEnabled && !f.overwrite) &&
             (f.position != NoPosition ==> viaCursor)) ==> st == Ok
  {
    if !keyFlagsKnown || !recordFlagsKnown then InvParameter
    else if f.hintAppend && f.hintPrepend then InvParameter
    else if (f.hintAppend || f.hintPrepend) && !viaCursor then InvParameter
    else if f.overwrite && WantsDuplicate(f) then InvParameter
    else if WantsDuplicate(f) && !dupsEnabled then InvParameter
    else if f.position != NoPosition && !viaCursor then InvParameter
    else Ok
  }

  /** The checks of ham_db_find, ham_cursor_find, ham_cursor_move and the erase calls:
      the insert hints are refused there, and direct access to the record buffer is
      allowed only in an in-memory environment. */
  function CheckAccess(hint: bool, directAccess: bool, inMemory: bool): (st: Status)
    ensures st == Ok <==> !hint && (directAccess ==> inMemory)
    ensures st == Ok || st == InvParameter
  {
    if hint then InvParameter
    else if directAccess && !inMemory then InvParameter
    else Ok
  }

  /** Page sizes an environment accepts: 1024, or a positive multiple of 2048. */
  predicate PageSizeAccepted(ps: nat)
  {
    ps == 1024 || (ps > 0 && ps % 2048 == 0)
  }

  /** The checks of ham_env_create that the model covers: recovery cannot be combined
      with an in-memory environment, and an explicit page size must be accepted. */
  function CheckEnvCreate(inMemory: bool, recovery: bool, pageSize: Option<nat>): (st: Status)
    ensures st == Ok || st == InvParameter || st == InvPageSize
    ensures st == InvParameter <==> inMemory && recovery
    ensures st == Ok <==> !(inMemory && recovery) && (pageSize.Some? ==> PageSizeAccepted(pageSize.value))
    ensures st == Ok && pageSize.Some? ==> pageSize.value >= 1024 && pageSize.value % 1024 == 0
    ensures (pageSize.Some? && pageSize.value % 1024 == 0 && (pageSize.value / 1024) % 2 == 1 &&
             pageSize.value != 1024) ==> st == InvPageSize || st == InvParameter
  {
    if inMemory && recovery then InvParameter
    else if pageSize.Some? && !PageSizeAccepted(pageSize.value) then InvPageSize
    else if pageSize.Some? then PageSizeShape(pageSize.value); Ok
    else Ok
  }

  /** Accepted page sizes are exactly 1024 and the multiples of 2048; in particular no size
      below 1024 and no odd multiple of 1024 other than 1024 itself. */
  lemma PageSizeShape(ps: nat)
    ensures PageSizeAccepted(ps) ==> ps >= 1024 && ps % 1024 == 0
    ensures ps % 1024 == 0 && (ps / 1024) % 2 == 1 && ps != 1024 ==> !PageSizeAccepted(ps)
  {
    if PageSizeAccepted(ps) && ps != 1024 {
      var m := ps / 2048;
      assert ps == 2048 * m;
      assert ps / 1024 == 2 * m;
    }
  }

  /** The append/prepend hints are accepted by a cursor insert and by nothing else: a
      database insert, a find, a move and an erase refuse them, whatever else is asked. */
  lemma HintsOnlyOnCursorInsert(f: InsertFlags, dupsEnabled: bool, keyFlagsKnown: bool,
                                recordFlagsKnown: bool, directAccess: bool, inMemory: bool)
    requires f.hintAppend || f.hintPrepend
    ensures CheckInsert(f, dupsEnabled, false, keyFlagsKnown, recordFlagsKnown) == InvParameter
    ensures CheckAccess(true, directAccess, inMemory) == InvParameter
    ensures (f.hintAppend != f.hintPrepend && f.position == NoPosition && !f.duplicate &&
             keyFlagsKnown && recordFlagsKnown) ==>
      CheckInsert(f, dupsEnabled, true, keyFlagsKnown, recordFlagsKnown) == Ok
  {
  }

  /** An environment created with recovery is kept on a durable medium, so it never grants
      direct access to record buffers; an in-memory one, which cannot have recovery,
      always does. */
  lemma RecoveryExcludesDirectAccess(inMemory: bool, pageSize: Option<nat>)
    ensures CheckEnvCreate(inMemory, true, pageSize) == Ok ==> CheckAccess(false, true, inMemory) == InvParameter
    ensures CheckEnvCreate(inMemory, false, pageSize) == Ok && inMemory ==> CheckAccess(false, true, inMemory) == Ok
  {
  }

  /** The page sizes the environment tests use. */
  lemma PageSizeCases()
    ensures !PageSizeAccepted(512) && !PageSizeAccepted(3072)
    ensures PageSizeAccepted(1024) && PageSizeAccepted(2048) && PageSizeAccepted(4096)
    ensures PageSizeAccepted(32 * 1024) && PageSizeAccepted(64 * 1024) && PageSizeAccepted(128 * 1024)
    ensures CheckEnvCreate(true, true, None) == InvParameter
    ensures CheckEnvCreate(false, true, None) == Ok
    ensures CheckEnvCreate(false, false, Some(512)) == InvPageSize
  {
  }

  /** The combinations the insert, duplicate and hinting tests exercise. */
  lemma InsertFlagCases()
    ensures CheckInsert(InsertFlags(true, true, NoPosition, false, false), false, false, true, true) == InvParameter
    ensures CheckInsert(InsertFlags(true, true, NoPosition, false, false), true, false, true, true) == InvParameter
    ensures CheckInsert(InsertFlags(false, true, NoPosition, false, false), false, false, true, true) == InvParameter
    ensures CheckInsert(InsertFlags(false, true, NoPosition, false, false), true, false, true, true) == Ok
    ensures forall p :: p != NoPosition ==>
      CheckInsert(InsertFlags(false, false, p, false, false), false, false, true, true) == InvParameter
    ensures CheckInsert(InsertFlags(true, false, NoPosition, false, false), false, false, true, true) == Ok
    ensures CheckInsert(PlainInsert, false, false, false, true) == InvParameter
    ensures CheckInsert(PlainInsert, false, false, true, false) == InvParameter
    ensures CheckInsert(InsertFlags(false, false, NoPosition, true, false), false, false, true, true) == InvParameter
    ensures CheckInsert(InsertFlags(false, false, NoPosition, false, true), false, false, true, true) == InvParameter
    ensures CheckInsert(InsertFlags(false, false, NoPosition, true, false), false, true, true, true) == Ok
    ensures CheckInsert(InsertFlags(false, false, NoPosition, true, true), false, true, true, true) == InvParameter
  {
  }
}
