/** The reading lifecycle: the automaton the merge engine enforces on a book's status. */
module Statuses {
  import opened Wrappers
  import opened Text

  datatype ReadingStatus = WantToRead | Reading | Read | Abandoned | OnHold

  function StatusText(s: ReadingStatus): string
  {
    match s
    case WantToRead => "want-to-read"
    case Reading => "reading"
    case Read => "read"
    case Abandoned => "abandoned"
    case OnHold => "on-hold"
  }

  predicate CanTransition(from: ReadingStatus, target: ReadingStatus)
  {
    match (from, target)
    case (WantToRead, Reading) => true
    case (Reading, Read) => true
    case (Reading, Abandoned) => true
    case (Reading, OnHold) => true
    case (OnHold, Reading) => true
    case (Abandoned, Reading) => true
    case (Read, Reading) => true
    case _ => false
  }

  /** Case-insensitive, with the importers' aliases. */
  function ParseStatus(s: string): Option<ReadingStatus>
  {
    var t := LowerCase(s);
    if t == "want-to-read" || t == "to-read" then Some(WantToRead)
    else if t == "reading" || t == "currently-reading" then Some(Reading)
    else if t == "read" then Some(Read)
    else if t == "abandoned" || t == "dnf" then Some(Abandoned)
    else if t == "on-hold" || t == "paused" then Some(OnHold)
    else None
  }

  /** Every status is read back from the text it is written as. */
  lemma StatusTextParses(s: ReadingStatus)
    ensures ParseStatus(StatusText(s)) == Some(s)
  {
    assert LowerCase(StatusText(s)) == StatusText(s);
  }
}
