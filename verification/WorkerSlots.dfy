/**
  The request slots through which the frontend hands work to the R worker thread
  (c_ffi/load_r.c).  There is one slot of each sort; a request overwrites what its slot
  holds, and asking for completions withdraws a request for column names, and the other
  way round.
*/
module WorkerSlots {
  import opened Wrappers

  datatype LineRequest = LineRequest(line: string, cursorPos: int)

  datatype Slots = Slots(cmd: Option<string>, completion: Option<LineRequest>, columns: Option<string>)

  datatype Work = NoWork | EvalCode(code: string) | CompleteLine(request: LineRequest) | ListColumns(name: string)

  const EMPTY := Slots(None, None, None)

  function PutCommand(s: Slots, code: string): Slots {
    s.(cmd := Some(code))
  }

  function PutCompletion(s: Slots, r: LineRequest): Slots {
    s.(completion := Some(r), columns := None)
  }

  function PutColumns(s: Slots, name: string): Slots {
    s.(columns := Some(name), completion := None)
  }

  /** What one turn of the worker loop takes: a command first, and with it every other request is
      thrown away as stale. */
  function NextWork(s: Slots): Work {
    if s.cmd.Some? then EvalCode(s.cmd.value)
    else if s.completion.Some? then CompleteLine(s.completion.value)
    else if s.columns.Some? then ListColumns(s.columns.value)
    else NoWork
  }

  // ------------------------------------------------------------------ a stretch of requests

  datatype Request = Command(code: string) | Completion(line: string, cursorPos: int) | Columns(name: string)

  function Put(s: Slots, r: Request): Slots {
    match r
    case Command(code) => PutCommand(s, code)
    case Completion(line, cursorPos) => PutCompletion(s, LineRequest(line, cursorPos))
    case Columns(name) => PutColumns(s, name)
  }

  function PutAll(requests: seq<Request>): Slots {
    if requests == [] then EMPTY else Put(PutAll(requests[..|requests| - 1]), requests[|requests| - 1])
  }

  /** What was asked for last that `wanted` wants. */
  function Last(requests: seq<Request>, wanted: Request -> bool): (r: Option<Request>)
    ensures match r
            case None => forall i :: 0 <= i < |requests| ==> !wanted(requests[i])
            case Some(x) => exists i ::
              0 <= i < |requests| && requests[i] == x && wanted(x) && forall j :: i < j < |requests| ==> !wanted(requests[j])
  {
    if requests == [] then None
    else
      var n := |requests| - 1;
      if wanted(requests[n]) then Some(requests[n]) else Last(requests[..n], wanted)
  }

  /** Whatever was asked for since the worker last took something: it evaluates the last command if there was one, and
      otherwise does what was asked for last, completing that line at that position or listing the columns of that
      object. */
  lemma {:induction false} LastRequestIsTaken(requests: seq<Request>)
    ensures
      NextWork(PutAll(requests)) ==
        match Last(requests, (r: Request) => r.Command?)
        case Some(c) => EvalCode(c.code)
        case None =>
          if requests == [] then NoWork
          else match requests[|requests| - 1]
            case Command(code) => EvalCode(code)
            case Completion(line, cursorPos) => CompleteLine(LineRequest(line, cursorPos))
            case Columns(name) => ListColumns(name)
  {
    CommandStays(requests);
  }

  lemma {:induction false} CommandStays(requests: seq<Request>)
    ensures PutAll(requests).cmd == match Last(requests, (r: Request) => r.Command?) case Some(c) => Some(c.code) case None => None
  {
    if requests != [] {
      CommandStays(requests[..|requests| - 1]);
    }
  }

  class RequestSlots {
    var pendingCmd: Option<string>
    var pendingCompletionLine: Option<string>
    var pendingCompletionPos: int
    var pendingColumnObject: Option<string>

    ghost function Contents(): Slots
      reads this
    {
      Slots(pendingCmd,
            if pendingCompletionLine.None? then None
            else Some(LineRequest(pendingCompletionLine.value, pendingCompletionPos)),
            pendingColumnObject)
    }

    constructor ()
      ensures Contents() == EMPTY
    {
      pendingCmd, pendingCompletionLine, pendingCompletionPos, pendingColumnObject := None, None, 0, None;
    }

    method Submit(code: string)
      modifies this
      ensures Contents() == PutCommand(old(Contents()), code)
    {
      pendingCmd := Some(code);
    }

    method RequestCompletions(line: string, cursorPos: int)
      modifies this
      ensures Contents() == PutCompletion(old(Contents()), LineRequest(line, cursorPos))
    {
      pendingCompletionLine := Some(line);
      pendingCompletionPos := cursorPos;
      pendingColumnObject := None;
    }

    method RequestColumns(objectName: string)
      modifies this
      ensures Contents() == PutColumns(old(Contents()), objectName)
    {
      pendingColumnObject := Some(objectName);
      pendingCompletionLine := None;
    }

    /** One turn of the worker loop up to the point where it lets the lock go: whatever it takes, no other request
        survives.  The turns that run sandboxed code for the assistant, which come between commands and completions and
        leave requests as they are, are not part of this model. */
    method TakeWork() returns (w: Work)
      modifies this
      ensures w == NextWork(old(Contents()))
      ensures Contents() == EMPTY
    {
      w := NoWork;
      if pendingCmd.Some? {
        w := EvalCode(pendingCmd.value);
        pendingCmd := None;
        pendingCompletionLine := None;
        pendingColumnObject := None;
      } else if pendingCompletionLine.Some? {
        w := CompleteLine(LineRequest(pendingCompletionLine.value, pendingCompletionPos));
        pendingCompletionLine := None;
        pendingColumnObject := None;
      } else if pendingColumnObject.Some? {
        w := ListColumns(pendingColumnObject.value);
        pendingColumnObject := None;
      }
    }
  }
}
