/** The Assuan session of the gpg agent (`pksign` and `handle_connection` in
    trezor_agent/gpg/agent.py), as a pure step function over the lines a
    client sends. The key registry and the signing device are a `Device`
    value; the socket is the sequence of lines read and the sequence of
    replies sent. */
module Agent {
  import opened Wrappers
  import opened Text
  import opened Bytes
  import opened Signature

  /** Why a session was aborted by an exception. */
  datatype Fault =
    | ArityMismatch         // `keygrip, = args` or `algo, digest = args` could not unpack
    | UnsupportedAlgorithm  // `assert algo == '8'` failed
    | KeyUnavailable        // resolving the default key, or opening the device for it, raised
    | InvalidHex            // unhexlify raised: odd length, non-hex digit, or no value (None)
    | KeygripMismatch       // the resolved key's keygrip is not the one SIGKEY named
    | DeviceFailure         // the device raised while signing

  /** The collaborators `pksign` consults. `keygrip` is the keygrip (raw
      bytes) of the public key the registry resolves for the default
      identity, `None` when that lookup or opening the device raises.
      `sign` maps a raw digest to the device's (r, s), `None` when the
      device raises. Both are fixed for the whole session. */
  datatype Device = Device(keygrip: Option<string>, sign: string -> Option<(U256, U256)>)

  /** The local variables of `handle_connection`, as received from the
      client: hex keygrip, hex digest and algorithm token. */
  datatype Session = Session(keygrip: Option<string>, digest: Option<string>, algo: Option<string>)

  const Init: Session := Session(None, None, None)

  /** The only algorithm identifier `pksign` accepts. */
  const SupportedAlgo: string := "8"

  const OkLine: string := "OK\n"
  const VersionLine: string := "D 2.1.11\n"
  const AgentIdLine: string := "D TREZOR\n"

  /** Commands acknowledged without any effect. */
  const NoOps: set<string> := {"RESET", "OPTION", "HAVEKEY", "SETKEYDESC"}

  predicate IsKnownCommand(command: string)
  {
    command in NoOps || command in {"GETINFO", "AGENT_ID", "SIGKEY", "SETHASH", "PKSIGN"}
  }

  /** `SETHASH` is the only command that sets the algorithm and the digest,
      and it sets both. */
  predicate Consistent(st: Session)
  {
    st.algo.Some? == st.digest.Some?
  }

  /** One Assuan line: it ends with its only line feed. */
  predicate IsLine(o: string)
  {
    |o| >= 1 && o[|o| - 1] == '\n' && forall i :: 0 <= i < |o| - 1 ==> o[i] != '\n'
  }

  predicate IsDataLine(o: string)
  {
    IsLine(o) && |o| >= 2 && o[..2] == "D "
  }

  /** A payload that is one line, sent after `D `, is a data line. */
  lemma DataLine(payload: string)
    requires IsLine(payload)
    ensures IsDataLine("D " + payload)
  {
    var o := "D " + payload;
    assert forall i :: 2 <= i < |o| ==> o[i] == payload[i - 2];
    assert o[..2] == "D ";
  }

  /** The replies to one completed command: an optional data line, then OK. */
  predicate IsReply(out: seq<string>)
  {
    && (|out| == 1 || |out| == 2)
    && out[|out| - 1] == OkLine
    && (|out| == 2 ==> IsDataLine(out[0]))
  }

  /** `binascii.unhexlify` applied to a session variable that may be `None`. */
  function UnhexlifyVar(v: Option<string>): (r: Option<string>)
    ensures r.Some? <==>
      v.Some? && |v.value| % 2 == 0 && forall i :: 0 <= i < |v.value| ==> HexValue(v.value[i]).Some?
    ensures r.Some? ==> DecodesTo(v.value, r.value)
  {
    if v.None? then None else Unhexlify(v.value)
  }

  /** Everything `pksign` needs to return a signature, as one conjunction. */
  predicate SigningAllowed(dev: Device, keygrip: Option<string>, digest: Option<string>, algo: Option<string>)
  {
    && algo == Some(SupportedAlgo)
    && dev.keygrip.Some?
    && UnhexlifyVar(keygrip) == Some(dev.keygrip.value)
    && UnhexlifyVar(digest).Some?
    && dev.sign(UnhexlifyVar(digest).value).Some?
  }

  /** `pksign(keygrip, digest, algo)`: the checks in the source's order, then
      the device's signature over the raw digest, encoded by `sig_encode`. */
  function Pksign(dev: Device, keygrip: Option<string>, digest: Option<string>, algo: Option<string>)
    : (r: Result<string, Fault>)
    ensures r.Success? <==> SigningAllowed(dev, keygrip, digest, algo)
    ensures algo != Some(SupportedAlgo) ==> r == Failure(UnsupportedAlgorithm)
    ensures r.Success? ==> IsLine(r.value)
    ensures r.Success? ==>
      var (x, y) := dev.sign(UnhexlifyVar(digest).value).value;
      SigDecode(r.value) == Some((x as nat, y as nat))
  {
    if algo != Some(SupportedAlgo) then Failure(UnsupportedAlgorithm)
    else if dev.keygrip.None? then Failure(KeyUnavailable)
    else
      var grip := UnhexlifyVar(keygrip);
      if grip.None? then Failure(InvalidHex)
      else if dev.keygrip.value != grip.value then Failure(KeygripMismatch)
      else
        var raw := UnhexlifyVar(digest);
        if raw.None? then Failure(InvalidHex)
        else
          match dev.sign(raw.value)
          case None => Failure(DeviceFailure)
          case Some((x, y)) =>
            SigEncodeIsOneLine(x, y);
            SigDecodeEncode(x, y);
            Success(SigEncode(x, y))
  }

  /** How processing one line ended: the loop goes on, `handle_connection`
      returned, or an exception escaped it. */
  datatype Outcome = Continue | Closed | Abort(fault: Fault)

  datatype StepResult = StepResult(next: Session, out: seq<string>, outcome: Outcome)

  /** The command token of a line: `parts[0]` of `line.split(' ')`. */
  function CommandOf(line: string): (command: string)
    ensures ' ' !in command
  {
    Split(line, ' ')[0]
  }

  /** The arguments of a line: `parts[1:]`. No argument has a space. */
  function ArgsOf(line: string): (args: seq<string>)
    ensures forall i :: 0 <= i < |args| ==> ' ' !in args[i]
  {
    Split(line, ' ')[1..]
  }

  /** Command and arguments, joined by single spaces, give the line back:
      the split loses nothing. */
  lemma CommandArgsJoin(line: string)
    ensures Join([CommandOf(line)] + ArgsOf(line), ' ') == line
  {
    var parts := Split(line, ' ');
    JoinSplit(line, ' ');
    assert [parts[0]] + parts[1..] == parts;
  }

  /** A command completed: its data lines, then the closing OK. */
  function Ack(next: Session, data: seq<string>): StepResult
  {
    StepResult(next, data + [OkLine], Continue)
  }

  /** One iteration of the `handle_connection` loop on a line already read. */
  function Step(dev: Device, st: Session, line: string): (res: StepResult)
    ensures res.outcome.Continue? ==> IsReply(res.out)
    ensures !res.outcome.Continue? ==> res.out == [] && res.next == st
    ensures res.outcome.Closed? <==> !IsKnownCommand(CommandOf(line))
    ensures Consistent(st) ==> Consistent(res.next)
    ensures CommandOf(line) != "SIGKEY" ==> res.next.keygrip == st.keygrip
    ensures CommandOf(line) != "SETHASH" ==> res.next.algo == st.algo && res.next.digest == st.digest
  {
    var command := CommandOf(line);
    var args := ArgsOf(line);
    if command in NoOps then Ack(st, [])
    else if command == "GETINFO" then Ack(st, [VersionLine])
    else if command == "AGENT_ID" then Ack(st, [AgentIdLine])
    else if command == "SIGKEY" then
      if |args| == 1 then Ack(st.(keygrip := Some(args[0])), [])
      else StepResult(st, [], Abort(ArityMismatch))
    else if command == "SETHASH" then
      if |args| == 2 then Ack(st.(algo := Some(args[0]), digest := Some(args[1])), [])
      else StepResult(st, [], Abort(ArityMismatch))
    else if command == "PKSIGN" then PksignReply(st, Pksign(dev, st.keygrip, st.digest, st.algo))
    else StepResult(st, [], Closed)
  }

  /** The `PKSIGN` branch given what `pksign` returned: `D ` and the
      signature, then OK; or the abort. */
  function PksignReply(st: Session, signed: Result<string, Fault>): (res: StepResult)
    requires signed.Success? ==> IsLine(signed.value)
    ensures res.next == st
    ensures res.outcome.Continue? <==> signed.Success?
    ensures res.outcome.Continue? ==> IsReply(res.out)
    ensures signed.Success? ==> res.out == ["D " + signed.value, OkLine]
    ensures !res.outcome.Continue? ==> res.out == [] && res.outcome == Abort(signed.error)
  {
    match signed
    case Success(sig) =>
      DataLine(sig);
      Ack(st, ["D " + sig])
    case Failure(f) => StepResult(st, [], Abort(f))
  }

  /** How a session ended: `handle_connection` returned on an unknown
      command, an exception aborted it, or the client hung up (the next read
      raised `EOFError`). */
  datatype End = Returned | Aborted(fault: Fault) | Disconnected

  /** Replies sent, how the session ended, how many commands completed, and
      the session variables at the end. */
  datatype Transcript = Transcript(out: seq<string>, end: End, handled: nat, last: Session)

  /** A command completed with replies `out` before the rest of the session `t`. */
  function Completed(out: seq<string>, t: Transcript): Transcript
  {
    t.(out := out + t.out, handled := t.handled + 1)
  }

  /** The `handle_connection` loop from state `st` over the lines the client
      sends. Every line is read and completed until one ends the session, so
      the client stays connected exactly when all its lines were completed. */
  function Serve(dev: Device, st: Session, lines: seq<string>): (t: Transcript)
    ensures t.handled <= |lines|
    ensures t.end.Disconnected? <==> t.handled == |lines|
    decreases |lines|
  {
    if lines == [] then Transcript([], Disconnected, 0, st)
    else
      var step := Step(dev, st, lines[0]);
      match step.outcome
      case Continue => Completed(step.out, Serve(dev, step.next, lines[1..]))
      case Closed => Transcript(step.out, Returned, 0, step.next)
      case Abort(f) => Transcript(step.out, Aborted(f), 0, step.next)
  }

  /** `handle_connection`: all variables unset, the greeting OK, then the loop. */
  function Run(dev: Device, lines: seq<string>): (t: Transcript)
    ensures |t.out| >= 1 && t.out[0] == OkLine
    ensures t.handled <= |lines|
    ensures t.end.Disconnected? <==> t.handled == |lines|
  {
    var t := Serve(dev, Init, lines);
    t.(out := [OkLine] + t.out)
  }
}
