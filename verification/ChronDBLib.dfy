/** The C entry points of java/chrondb/lib/ChronDBLib.java and their one shared error slot.

    The Clojure function behind an entry point is not part of this model: an entry point is given what
    that function did (`Outcome`), and the model says what the entry point makes of it.
 */
module ChronDBLib {
  import opened Wrappers

  datatype Op =
    | Put | Get | Delete | ListByPrefix | ListByTable | History | Query | ExecuteSql
    | SetupRemote | Push | Pull | Fetch | RemoteStatus
    | Export | CreateBackup | RestoreBackup | ExportSnapshot | ImportSnapshot

  /** What the Clojure function did.  An exception's message may be null. */
  datatype Outcome =
    | ReturnsString(text: string)
    | ReturnsNumber(n: int)
    | ReturnsOther
    | Throws(message: Option<string>)

  function EntryName(op: Op): string {
    match op
    case Put => "put"
    case Get => "get"
    case Delete => "delete"
    case ListByPrefix => "list_by_prefix"
    case ListByTable => "list_by_table"
    case History => "history"
    case Query => "query"
    case ExecuteSql => "execute_sql"
    case SetupRemote => "setup_remote"
    case Push => "push"
    case Pull => "pull"
    case Fetch => "fetch"
    case RemoteStatus => "remote_status"
    case Export => "export"
    case CreateBackup => "create_backup"
    case RestoreBackup => "restore_backup"
    case ExportSnapshot => "export_snapshot"
    case ImportSnapshot => "import_snapshot"
  }

  /** The entry points that say nothing when the function returns an unexpected value. */
  predicate Silent(op: Op) {
    op.Get? || op.Delete? || op.ListByPrefix? || op.ListByTable? || op.History? || op.Query?
  }

  /** Did the function return the type its entry point looks for? */
  predicate Expected(op: Op, outcome: Outcome) {
    if op.Delete? then outcome.ReturnsNumber? else outcome.ReturnsString?
  }

  /** The slot after an entry point ran. */
  function SlotAfter(op: Op, outcome: Outcome, slot: Option<string>): Option<string> {
    if outcome.Throws? then outcome.message
    else if Expected(op, outcome) || Silent(op) then slot
    else Some(EntryName(op) + " returned null")
  }

  /** One isolate's static state. */
  class ChronDBLib {
    var lastError: Option<string>

    constructor ()
      ensures lastError == None
    {
      lastError := None;
    }

    /** Every entry point that returns a string or a null pointer. */
    method InvokeText(op: Op, outcome: Outcome) returns (pointer: Option<string>)
      requires !op.Delete?
      modifies this
      ensures lastError == SlotAfter(op, outcome, old(lastError))
      ensures pointer == if outcome.ReturnsString? then Some(outcome.text) else None
    {
      match outcome {
        case ReturnsString(text) => return Some(text);
        case Throws(message) => lastError := message;
        case _ =>
          if !Silent(op) {
            lastError := Some(EntryName(op) + " returned null");
          }
      }
      return None;
    }

    method InvokeDelete(outcome: Outcome) returns (code: int)
      modifies this
      ensures lastError == SlotAfter(Delete, outcome, old(lastError))
      ensures code == if outcome.ReturnsNumber? then outcome.n else -1
    {
      match outcome {
        case ReturnsNumber(n) => return n;
        case Throws(message) => lastError := message;
        case _ =>
      }
      return -1;
    }

    /** Reading the slot empties it. */
    method GetLastError() returns (error: Option<string>)
      modifies this
      ensures error == old(lastError) && lastError == None
    {
      error := lastError;
      if error.Some? {
        lastError := None;
      }
    }
  }
}
