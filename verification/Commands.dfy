/** The worker's commands: what each execute_internal does with the promise of its command object. */
module Commands {

  /** std::error_code. */
  datatype Code = NoError | Error(value: int)

  const INVALID_ARGUMENT := Error(22)
  const NO_SUCH_PROCESS := Error(3)
  const OPERATION_CANCELED := Error(125)

  datatype Kind =
    | AddConnection | AttachConnection | RemoveConnection | ModifyConnection | AttachProcess
    | RemoveProcess | RequestStop | ShutDownConnection | TaskDone

  /**
   * What the calls inside execute_internal report, in the order in which they are made. `action` is the code of the
   * worker's own operation: connecting, attaching, removing, modifying, stopping, shutting down or handling the event.
   */
  datatype Outcomes = Outcomes(
    handleValid: bool,
    address: Code,
    socket: Code,
    connectionMade: bool,
    making: Code,
    hasTask: bool,
    readiness: Code,
    action: Code)

  /** The promise of a command: unset, or set to a code. */
  datatype Promise = Unset | Set(code: Code)

  function FirstError(codes: seq<Code>): (c: Code)
    ensures c.NoError? <==> forall i :: 0 <= i < |codes| ==> codes[i].NoError?
    ensures c.Error? ==> c in codes
  {
    if codes == [] then NoError else if codes[0].Error? then codes[0] else FirstError(codes[1..])
  }

  lemma FirstOfThree(a: Code, b: Code, c: Code)
    ensures FirstError([a, b, c]) == if a.Error? then a else if b.Error? then b else c
  {
    assert [a, b, c][1..] == [b, c] && [b, c][1..] == [c] && [c][1..] == [];
    assert FirstError([c]) == c && FirstError([b, c]) == if b.Error? then b else c;
  }

  lemma FirstOfFour(a: Code, b: Code, c: Code, d: Code)
    ensures FirstError([a, b, c, d]) == if a.Error? then a else if b.Error? then b else if c.Error? then c else d
  {
    assert [a, b, c, d][1..] == [b, c, d];
    FirstOfThree(b, c, d);
  }

  /** The stages a command goes through, with the code under which it would report each of them. */
  function Stages(kind: Kind, env: Outcomes): seq<Code> {
    match kind
    case AddConnection =>
      [if env.handleValid then NoError else INVALID_ARGUMENT, env.address, env.socket, env.action]
    case TaskDone =>
      [if env.hasTask then NoError else NO_SUCH_PROCESS, if env.readiness.Error? then OPERATION_CANCELED else NoError,
       env.action]
    case _ => [env.action]
  }

  /** A socket was opened and no connection object came out of make_connection. */
  predicate LosesConnection(kind: Kind, env: Outcomes) {
    kind.AddConnection? && env.handleValid && env.address.NoError? && env.socket.NoError? &&
    !(env.connectionMade && env.making.NoError?)
  }

  /** What a command's promise holds once it has run: the first stage that failed, or nothing for a lost connection. */
  function Verdict(kind: Kind, env: Outcomes): (p: Promise) {
    if LosesConnection(kind, env) then Unset else Set(FirstError(Stages(kind, env)))
  }

  /** BaseCommand with the command types folded into `kind`. */
  class BaseCommand {
    const kind: Kind
    var promise: Promise
    ghost var calls: nat

    constructor (kind: Kind)
      ensures this.kind == kind && promise == Unset && calls == 0
    {
      this.kind := kind;
      promise, calls := Unset, 0;
    }

    /** A promise is set once; a second set_value would throw out of a noexcept function. */
    method SetError(err: Code)
      requires promise.Unset?
      modifies this
      ensures promise == Set(err) && calls == old(calls) + 1
    {
      promise := Set(err);
      calls := calls + 1;
    }

    /** execute_internal of every command: at most one call of set_error, and none exactly for a lost connection. */
    method ExecuteInternal(env: Outcomes)
      requires promise.Unset?
      modifies this
      ensures promise == Verdict(kind, env)
      ensures calls == old(calls) + if LosesConnection(kind, env) then 0 else 1
      ensures promise == Set(NoError) <==>
              !LosesConnection(kind, env) && forall c :: c in Stages(kind, env) ==> c.NoError?
      ensures kind.TaskDone? ==>
                promise == Set(if !env.hasTask then Error(3) else if env.readiness.Error? then Error(125) else env.action)
      ensures kind.AddConnection? ==>
                promise == if !env.handleValid then Set(Error(22))
                           else if env.address.Error? then Set(env.address)
                           else if env.socket.Error? then Set(env.socket)
                           else if env.connectionMade && env.making.NoError? then Set(env.action)
                           else Unset
      ensures !kind.TaskDone? && !kind.AddConnection? ==> promise == Set(env.action)
    {
      match kind {
        case AddConnection => AddConnectionInternal(env);
        case TaskDone => TaskDoneInternal(env);
        case _ => SetError(env.action);
      }
    }

    method AddConnectionInternal(env: Outcomes)
      requires promise.Unset? && kind.AddConnection?
      modifies this
      ensures promise == Verdict(kind, env)
      ensures calls == old(calls) + if LosesConnection(kind, env) then 0 else 1
      ensures promise == if !env.handleValid then Set(Error(22))
                         else if env.address.Error? then Set(env.address)
                         else if env.socket.Error? then Set(env.socket)
                         else if env.connectionMade && env.making.NoError? then Set(env.action)
                         else Unset
    {
      ghost var codes := Stages(kind, env);
      FirstOfFour(codes[0], codes[1], codes[2], codes[3]);
      if !env.handleValid {
        SetError(INVALID_ARGUMENT);
        return;
      }
      if env.address.NoError? {
        if env.socket.NoError? {
          if env.connectionMade && env.making.NoError? {
            SetError(env.action);
          }
          return;
        } else {
          SetError(env.socket);
          return;
        }
      } else {
        SetError(env.address);
      }
    }

    method TaskDoneInternal(env: Outcomes)
      requires promise.Unset? && kind.TaskDone?
      modifies this
      ensures promise == Verdict(kind, env) && calls == old(calls) + 1
      ensures promise == Set(if !env.hasTask then Error(3) else if env.readiness.Error? then Error(125) else env.action)
    {
      ghost var codes := Stages(kind, env);
      FirstOfThree(codes[0], codes[1], codes[2]);
      if env.hasTask {
        if env.readiness.NoError? {
          SetError(env.action);
        } else {
          SetError(OPERATION_CANCELED);
        }
      } else {
        SetError(NO_SUCH_PROCESS);
      }
    }
  }

  /** Every command but AddConnection sets its promise, and AddConnection leaves it unset only with a socket in hand. */
  lemma OnlyLostConnectionsStayUnset(kind: Kind, env: Outcomes)
    ensures Verdict(kind, env).Unset? <==> LosesConnection(kind, env)
    ensures Verdict(kind, env).Unset? ==> kind.AddConnection? && FirstError(Stages(kind, env)[..3]).NoError?
    ensures Verdict(kind, env) == Set(NoError) <==>
            !LosesConnection(kind, env) && forall c :: c in Stages(kind, env) ==> c.NoError?
  {
    var codes := Stages(kind, env);
    assert forall i :: 0 <= i < |codes| ==> codes[i] in codes;
  }
}
