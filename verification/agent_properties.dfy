/** What the agent's session promises its client, proved of the model in
    module Agent: the reply table of one command, and properties of whole
    sessions. */
module AgentProperties {
  import opened Wrappers
  import opened Text
  import opened Bytes
  import opened Signature
  import opened Agent

  // ---------------------------------------------------------------------
  // One command

  /** `RESET`, `OPTION`, `HAVEKEY` and `SETKEYDESC`, with any arguments,
      change nothing and are answered by OK alone. */
  lemma StepNoOp(dev: Device, st: Session, line: string)
    requires CommandOf(line) in NoOps
    ensures Step(dev, st, line) == StepResult(st, [OkLine], Continue)
  {
  }

  /** `GETINFO` and `AGENT_ID` answer a fixed data line, then OK, and change nothing. */
  lemma StepInfo(dev: Device, st: Session, line: string)
    ensures CommandOf(line) == "GETINFO" ==>
      Step(dev, st, line) == StepResult(st, ["D 2.1.11\n", "OK\n"], Continue)
    ensures CommandOf(line) == "AGENT_ID" ==>
      Step(dev, st, line) == StepResult(st, ["D TREZOR\n", "OK\n"], Continue)
  {
  }

  /** `SIGKEY` with exactly one argument sets the keygrip and nothing else;
      with any other number of arguments it aborts the session silently. */
  lemma StepSigKey(dev: Device, st: Session, line: string)
    requires CommandOf(line) == "SIGKEY"
    ensures |ArgsOf(line)| == 1 ==>
      Step(dev, st, line) == StepResult(st.(keygrip := Some(ArgsOf(line)[0])), [OkLine], Continue)
    ensures |ArgsOf(line)| != 1 ==>
      Step(dev, st, line) == StepResult(st, [], Abort(ArityMismatch))
  {
  }

  /** `SETHASH` with exactly two arguments sets the algorithm and the digest
      and nothing else; otherwise it aborts the session silently. */
  lemma StepSetHash(dev: Device, st: Session, line: string)
    requires CommandOf(line) == "SETHASH"
    ensures |ArgsOf(line)| == 2 ==>
      Step(dev, st, line)
      == StepResult(st.(algo := Some(ArgsOf(line)[0]), digest := Some(ArgsOf(line)[1])), [OkLine], Continue)
    ensures |ArgsOf(line)| != 2 ==>
      Step(dev, st, line) == StepResult(st, [], Abort(ArityMismatch))
  {
  }

  /** `PKSIGN` answers a data line only when the algorithm is `8`, the
      keygrip named by `SIGKEY` decodes to the resolved key's keygrip, the
      digest decodes and the device signs; that line decodes to the device's
      signature. Otherwise the session aborts and nothing is sent. */
  lemma StepPksign(dev: Device, st: Session, line: string)
    requires CommandOf(line) == "PKSIGN"
    ensures var res := Step(dev, st, line);
      && (res.outcome.Continue? <==> SigningAllowed(dev, st.keygrip, st.digest, st.algo))
      && (res.outcome.Continue? ==>
            && res.next == st
            && |res.out| == 2 && res.out[1] == OkLine
            && res.out[0][..2] == "D "
            && var (x, y) := dev.sign(UnhexlifyVar(st.digest).value).value;
               SigDecode(res.out[0][2..]) == Some((x as nat, y as nat)))
      && (!res.outcome.Continue? ==> res.outcome.Abort? && res.out == [])
      && (st.algo != Some("8") ==> res.outcome == Abort(UnsupportedAlgorithm))
  {
    var res := Step(dev, st, line);
    if res.outcome.Continue? {
      var sig := Pksign(dev, st.keygrip, st.digest, st.algo).value;
      assert res.out[0] == "D " + sig;
      assert res.out[0][2..] == sig;
    }
  }

  /** An unknown command ends the session with no reply. */
  lemma StepUnknown(dev: Device, st: Session, line: string)
    requires !IsKnownCommand(CommandOf(line))
    ensures Step(dev, st, line) == StepResult(st, [], Closed)
  {
  }

  // ---------------------------------------------------------------------
  // Whole sessions

  /** What serving `b` adds to a transcript that ended with the client
      still connected; a transcript that ended otherwise stays as it is. */
  function Resume(dev: Device, ta: Transcript, b: seq<string>): Transcript
  {
    if ta.end.Disconnected? then
      var tb := Serve(dev, ta.last, b);
      Transcript(ta.out + tb.out, tb.end, ta.handled + tb.handled, tb.last)
    else ta
  }

  /** The session is a left fold over its input: serving `a + b` is serving
      `a`, then, if the client was still connected, serving `b` from where
      `a` left the session. So output is produced online, and once the
      session has ended, later input is never looked at. */
  lemma {:induction false} ServeAppend(dev: Device, st: Session, a: seq<string>, b: seq<string>)
    ensures Serve(dev, st, a + b) == Resume(dev, Serve(dev, st, a), b)
    decreases |a|
  {
    if a == [] {
      assert a + b == b;
    } else {
      var ab := a + b;
      assert ab[0] == a[0];
      assert ab[1..] == a[1..] + b;
      var step := Step(dev, st, a[0]);
      if step.outcome.Continue? {
        ServeAppend(dev, step.next, a[1..], b);
        ResumeCompleted(dev, step.out, Serve(dev, step.next, a[1..]), b);
      }
    }
  }

  lemma ResumeCompleted(dev: Device, out: seq<string>, t: Transcript, b: seq<string>)
    ensures Resume(dev, Completed(out, t), b) == Completed(out, Resume(dev, t, b))
  {
    if t.end.Disconnected? {
      var tb := Serve(dev, t.last, b);
      assert out + (t.out + tb.out) == (out + t.out) + tb.out;
    }
  }

  /** Input after the end of a session changes nothing. */
  lemma RunIgnoresInputAfterEnd(dev: Device, lines: seq<string>, more: seq<string>)
    requires !Run(dev, lines).end.Disconnected?
    ensures Run(dev, lines + more) == Run(dev, lines)
  {
    ServeAppend(dev, Init, lines, more);
  }

  /** An unknown command at position `k` sends nothing and ends the session
      (if an earlier line has not ended it already); lines after it are
      never processed. */
  lemma RunStopsAtUnknownCommand(dev: Device, lines: seq<string>, k: nat)
    requires k < |lines| && !IsKnownCommand(CommandOf(lines[k]))
    ensures var before := Run(dev, lines[..k]);
      Run(dev, lines) == if before.end.Disconnected? then before.(end := Returned) else before
  {
    assert lines == lines[..k] + lines[k..];
    ServeAppend(dev, Init, lines[..k], lines[k..]);
    var ta := Serve(dev, Init, lines[..k]);
    if ta.end.Disconnected? {
      StepUnknown(dev, ta.last, lines[k]);
      assert lines[k..][0] == lines[k];
      assert ta.out + [] == ta.out;
    }
  }

  /** The commands that never touch the session variables. */
  predicate IsStateless(command: string)
  {
    command in NoOps || command == "GETINFO" || command == "AGENT_ID"
  }

  /** The fixed replies of such a command. */
  function StatelessReply(command: string): seq<string>
  {
    if command == "GETINFO" then [VersionLine, OkLine]
    else if command == "AGENT_ID" then [AgentIdLine, OkLine]
    else [OkLine]
  }

  lemma StepStateless(dev: Device, st: Session, line: string)
    requires IsStateless(CommandOf(line))
    ensures Step(dev, st, line) == StepResult(st, StatelessReply(CommandOf(line)), Continue)
  {
  }

  lemma ServeStateless(dev: Device, st: Session, line: string, b: seq<string>)
    requires IsStateless(CommandOf(line))
    ensures Serve(dev, st, [line] + b) == Completed(StatelessReply(CommandOf(line)), Serve(dev, st, b))
  {
    StepStateless(dev, st, line);
    assert ([line] + b)[0] == line && ([line] + b)[1..] == b;
  }

  /** Inserting a no-op, `GETINFO` or `AGENT_ID` line at a point where the
      session is still open only adds that command's fixed replies there:
      the session variables, and so everything the rest of the session
      does, are unaffected. */
  lemma ServeInsertStateless(dev: Device, st: Session, a: seq<string>, line: string, b: seq<string>)
    requires IsStateless(CommandOf(line))
    requires Serve(dev, st, a).end.Disconnected?
    ensures var ta := Serve(dev, st, a);
      var rest := Serve(dev, ta.last, b);
      Serve(dev, st, a + [line] + b)
      == Transcript(ta.out + StatelessReply(CommandOf(line)) + rest.out, rest.end,
                    ta.handled + 1 + rest.handled, rest.last)
  {
    var ta := Serve(dev, st, a);
    var lb := [line] + b;
    assert a + [line] + b == a + lb;
    ServeOpenAppend(dev, st, a, lb);
    ServeStateless(dev, ta.last, line, b);
    Glue(ta, Serve(dev, ta.last, lb), StatelessReply(CommandOf(line)), Serve(dev, ta.last, b));
  }

  /** `ServeAppend` where the first part left the client connected. */
  lemma ServeOpenAppend(dev: Device, st: Session, a: seq<string>, b: seq<string>)
    requires Serve(dev, st, a).end.Disconnected?
    ensures var ta := Serve(dev, st, a);
      var tb := Serve(dev, ta.last, b);
      Serve(dev, st, a + b) == Transcript(ta.out + tb.out, tb.end, ta.handled + tb.handled, tb.last)
  {
    ServeAppend(dev, st, a, b);
  }

  /** Joining a transcript to one whose first step produced `reply`. */
  lemma Glue(ta: Transcript, tail: Transcript, reply: seq<string>, rest: Transcript)
    requires tail == Completed(reply, rest)
    ensures Transcript(ta.out + tail.out, tail.end, ta.handled + tail.handled, tail.last)
         == Transcript(ta.out + reply + rest.out, rest.end, ta.handled + 1 + rest.handled, rest.last)
  {
    assert ta.out + (reply + rest.out) == ta.out + reply + rest.out;
  }

  // ---------------------------------------------------------------------
  // A signing exchange

  /** The loop after one completed command: its replies, then the rest. */
  lemma ServeCons(dev: Device, st: Session, line: string, b: seq<string>)
    requires Step(dev, st, line).outcome.Continue?
    ensures var step := Step(dev, st, line);
      Serve(dev, st, [line] + b) == Completed(step.out, Serve(dev, step.next, b))
  {
    assert ([line] + b)[0] == line && ([line] + b)[1..] == b;
  }

  /** Two and three space-free words joined by single spaces split back
      into those words. */
  lemma SplitTwo(c: string, x: string)
    requires ' ' !in c && ' ' !in x
    ensures Split(c + " " + x, ' ') == [c, x]
  {
    SplitAtSeparator(c, ' ', x);
    SplitWithoutSeparator(x, ' ');
  }

  lemma SplitThree(c: string, x: string, y: string)
    requires ' ' !in c && ' ' !in x && ' ' !in y
    ensures Split(c + " " + x + " " + y, ' ') == [c, x, y]
  {
    assert c + " " + x + " " + y == c + " " + (x + " " + y);
    SplitAtSeparator(c, ' ', x + " " + y);
    SplitTwo(x, y);
  }

  /** The three lines gpg sends to sign, parsed as `line.split(' ')` does. */
  lemma ParseSigKey(kg: string)
    requires ' ' !in kg
    ensures CommandOf("SIGKEY " + kg) == "SIGKEY" && ArgsOf("SIGKEY " + kg) == [kg]
  {
    assert "SIGKEY " + kg == "SIGKEY" + " " + kg;
    SplitTwo("SIGKEY", kg);
  }

  lemma ParseSetHash(dg: string)
    requires ' ' !in dg
    ensures CommandOf("SETHASH 8 " + dg) == "SETHASH" && ArgsOf("SETHASH 8 " + dg) == ["8", dg]
  {
    assert "SETHASH 8 " + dg == "SETHASH" + " " + "8" + " " + dg;
    SplitThree("SETHASH", "8", dg);
  }

  lemma ParsePksign()
    ensures CommandOf("PKSIGN") == "PKSIGN"
  {
    SplitWithoutSeparator("PKSIGN", ' ');
  }

  lemma StepIsPksignReply(dev: Device, st: Session, line: string)
    requires CommandOf(line) == "PKSIGN"
    ensures Step(dev, st, line) == PksignReply(st, Pksign(dev, st.keygrip, st.digest, st.algo))
  {
    PksignIsNoOtherCommand();
  }

  /** `PKSIGN` when `pksign` succeeds: the data line, then OK. */
  lemma PksignReplySuccess(st: Session, sig: string)
    requires IsLine(sig)
    ensures PksignReply(st, Success(sig)) == StepResult(st, ["D " + sig, OkLine], Continue)
  {
    assert ["D " + sig] + [OkLine] == ["D " + sig, OkLine];
  }

  lemma PksignIsNoOtherCommand()
    ensures "PKSIGN" !in NoOps
    ensures "PKSIGN" !in {"GETINFO", "AGENT_ID", "SIGKEY", "SETHASH"}
  {
    assert "PKSIGN"[0] == 'P';
  }

  /** `pksign` on the values the exchange set, with a device that holds the
      key and signs the digest. */
  lemma PksignExchange(dev: Device, kg: string, dg: string, g: string, d: string, r: U256, s: U256)
    requires Unhexlify(kg) == Some(g) && Unhexlify(dg) == Some(d)
    requires dev.keygrip == Some(g) && dev.sign(d) == Some((r, s))
    ensures Pksign(dev, Some(kg), Some(dg), Some(SupportedAlgo)) == Success(SigEncode(r, s))
  {
  }

  /** The exchange gpg runs to sign: name the key, give the hash, ask for the
      signature. With a device that holds that key and signs the digest,
      the client gets three OKs, the signature line, and a final OK, and the
      session stays open for more commands. */
  lemma RunSigningExchange(dev: Device, kg: string, dg: string, g: string, d: string, r: U256, s: U256)
    requires ' ' !in kg && ' ' !in dg
    requires Unhexlify(kg) == Some(g) && Unhexlify(dg) == Some(d)
    requires dev.keygrip == Some(g) && dev.sign(d) == Some((r, s))
    ensures Run(dev, ["SIGKEY " + kg, "SETHASH 8 " + dg, "PKSIGN"])
            == Transcript([OkLine, OkLine, OkLine, "D " + SigEncode(r, s), OkLine], Disconnected, 3,
                          Session(Some(kg), Some(dg), Some("8")))
  {
    var l1, l2, l3 := "SIGKEY " + kg, "SETHASH 8 " + dg, "PKSIGN";
    var st1 := Init.(keygrip := Some(kg));
    var st2 := Session(Some(kg), Some(dg), Some(SupportedAlgo));
    var sig := ["D " + SigEncode(r, s), OkLine];
    assert Step(dev, Init, l1) == StepResult(st1, [OkLine], Continue) by {
      ParseSigKey(kg);
      StepSigKey(dev, Init, l1);
    }
    assert Step(dev, st1, l2) == StepResult(st2, [OkLine], Continue) by {
      ParseSetHash(dg);
      StepSetHash(dev, st1, l2);
    }
    assert Step(dev, st2, l3) == StepResult(st2, sig, Continue) by {
      ParsePksign();
      PksignExchange(dev, kg, dg, g, d, r, s);
      StepIsPksignReply(dev, st2, l3);
      SigEncodeIsOneLine(r, s);
      PksignReplySuccess(st2, SigEncode(r, s));
    }
    ServeThree(dev, Init, l1, l2, l3, st1, st2, st2, [OkLine], [OkLine], sig);
    Flatten(OkLine, "D " + SigEncode(r, s));
  }

  /** Three commands that each complete. */
  lemma ServeThree(dev: Device, st0: Session, l1: string, l2: string, l3: string,
                   st1: Session, st2: Session, st3: Session,
                   o1: seq<string>, o2: seq<string>, o3: seq<string>)
    requires Step(dev, st0, l1) == StepResult(st1, o1, Continue)
    requires Step(dev, st1, l2) == StepResult(st2, o2, Continue)
    requires Step(dev, st2, l3) == StepResult(st3, o3, Continue)
    ensures Serve(dev, st0, [l1, l2, l3]) == Transcript(o1 + (o2 + (o3 + [])), Disconnected, 3, st3)
  {
    assert [l1, l2, l3] == [l1] + ([l2] + ([l3] + []));
    ServeCons(dev, st2, l3, []);
    ServeCons(dev, st1, l2, [l3] + []);
    ServeCons(dev, st0, l1, [l2] + ([l3] + []));
  }

  lemma Flatten(ok: string, data: string)
    ensures [ok] + ([ok] + ([ok] + ([data, ok] + []))) == [ok, ok, ok, data, ok]
  {
  }

  /** Number of OK replies in `out`. */
  function OkCount(out: seq<string>): nat
  {
    if out == [] then 0 else (if out[0] == OkLine then 1 else 0) + OkCount(out[1..])
  }

  lemma {:induction false} OkCountAppend(a: seq<string>, b: seq<string>)
    ensures OkCount(a + b) == OkCount(a) + OkCount(b)
    decreases |a|
  {
    if a == [] {
      assert a + b == b;
    } else {
      assert (a + b)[0] == a[0];
      assert (a + b)[1..] == a[1..] + b;
      OkCountAppend(a[1..], b);
    }
  }

  lemma ReplyHasOneOk(out: seq<string>)
    requires IsReply(out)
    ensures OkCount(out) == 1
  {
    if |out| == 2 {
      assert out[0] != OkLine by {
        assert out[0][..2] == "D ";
        assert out[0][0] == 'D' && OkLine[0] == 'O';
      }
      assert out[1..] == [OkLine];
    }
  }

  lemma {:induction false} ServeOkCount(dev: Device, st: Session, lines: seq<string>)
    ensures OkCount(Serve(dev, st, lines).out) == Serve(dev, st, lines).handled
    decreases |lines|
  {
    if lines != [] {
      var step := Step(dev, st, lines[0]);
      if step.outcome.Continue? {
        ServeOkCount(dev, step.next, lines[1..]);
        ReplyHasOneOk(step.out);
        OkCountAppend(step.out, Serve(dev, step.next, lines[1..]).out);
      }
    }
  }

  /** One OK greets the client, and every command that completes sends
      exactly one OK more; a command that ends the session sends none. */
  lemma RunOkCount(dev: Device, lines: seq<string>)
    ensures OkCount(Run(dev, lines).out) == 1 + Run(dev, lines).handled
  {
    ServeOkCount(dev, Init, lines);
    OkCountAppend([OkLine], Serve(dev, Init, lines).out);
  }

  /** The reply at position `i` is one line, and is either OK or a data
      line immediately followed by OK. */
  predicate WellFormedAt(out: seq<string>, i: nat)
    requires i < |out|
  {
    && IsLine(out[i])
    && (out[i] == OkLine || (IsDataLine(out[i]) && i + 1 < |out| && out[i + 1] == OkLine))
  }

  /** A well-formed reply stream: well formed at every position. */
  predicate WellFormed(out: seq<string>)
  {
    forall i :: 0 <= i < |out| ==> WellFormedAt(out, i)
  }

  lemma WellFormedAppend(a: seq<string>, b: seq<string>)
    requires WellFormed(a) && WellFormed(b)
    ensures WellFormed(a + b)
  {
    var c := a + b;
    forall i | 0 <= i < |c|
      ensures WellFormedAt(c, i)
    {
      if i < |a| {
        assert WellFormedAt(a, i);
        assert c[i] == a[i];
        if a[i] != OkLine {
          assert c[i + 1] == a[i + 1];
        }
      } else {
        var j := i - |a|;
        assert WellFormedAt(b, j);
        assert c[i] == b[j];
        if b[j] != OkLine {
          assert c[i + 1] == b[j + 1];
        }
      }
    }
  }

  lemma ReplyWellFormed(out: seq<string>)
    requires IsReply(out)
    ensures WellFormed(out)
  {
    assert IsLine(OkLine);
    assert WellFormedAt(out, |out| - 1);
    if |out| == 2 {
      assert WellFormedAt(out, 0);
    }
  }

  lemma {:induction false} ServeWellFormed(dev: Device, st: Session, lines: seq<string>)
    ensures WellFormed(Serve(dev, st, lines).out)
    decreases |lines|
  {
    if lines != [] {
      var step := Step(dev, st, lines[0]);
      if step.outcome.Continue? {
        ServeWellFormed(dev, step.next, lines[1..]);
        ReplyWellFormed(step.out);
        WellFormedAppend(step.out, Serve(dev, step.next, lines[1..]).out);
      }
    }
  }

  /** Every session starts with the OK greeting, sent before any line is
      read, and its replies are well formed: single lines, each data line
      immediately followed by OK. */
  lemma RunWellFormed(dev: Device, lines: seq<string>)
    ensures Run(dev, lines).out[0] == OkLine
    ensures Run(dev, lines).out == [OkLine] + Serve(dev, Init, lines).out
    ensures WellFormed(Run(dev, lines).out)
  {
    ServeWellFormed(dev, Init, lines);
    ReplyWellFormed([OkLine]);
    WellFormedAppend([OkLine], Serve(dev, Init, lines).out);
  }

  /** The replies that carry no signature. */
  predicate IsFixedReply(o: string)
  {
    o == OkLine || o == VersionLine || o == AgentIdLine
  }

  lemma {:induction false} ServeWithoutSetHash(dev: Device, st: Session, lines: seq<string>)
    requires st.algo == None
    requires forall i :: 0 <= i < |lines| ==> CommandOf(lines[i]) != "SETHASH"
    ensures forall i :: 0 <= i < |Serve(dev, st, lines).out| ==> IsFixedReply(Serve(dev, st, lines).out[i])
    decreases |lines|
  {
    if lines != [] {
      var step := Step(dev, st, lines[0]);
      if step.outcome.Continue? {
        StepWithoutSetHash(dev, st, lines[0]);
        ServeWithoutSetHash(dev, step.next, lines[1..]);
        FixedAppend(step.out, Serve(dev, step.next, lines[1..]).out);
      }
    }
  }

  /** A command other than `SETHASH`, completed while no algorithm is set,
      sends only fixed replies and leaves the algorithm unset. */
  lemma StepWithoutSetHash(dev: Device, st: Session, line: string)
    requires st.algo == None && CommandOf(line) != "SETHASH"
    requires Step(dev, st, line).outcome.Continue?
    ensures Step(dev, st, line).next.algo == None
    ensures forall i :: 0 <= i < |Step(dev, st, line).out| ==> IsFixedReply(Step(dev, st, line).out[i])
  {
    assert CommandOf(line) != "PKSIGN" by {
      if CommandOf(line) == "PKSIGN" {
        StepPksign(dev, st, line);
      }
    }
  }

  lemma FixedAppend(x: seq<string>, y: seq<string>)
    requires forall i :: 0 <= i < |x| ==> IsFixedReply(x[i])
    requires forall i :: 0 <= i < |y| ==> IsFixedReply(y[i])
    ensures forall i :: 0 <= i < |x + y| ==> IsFixedReply((x + y)[i])
  {
    assert forall i :: 0 <= i < |x + y| ==> (x + y)[i] == (if i < |x| then x[i] else y[i - |x|]);
  }

  /** Fail closed: a session in which no `SETHASH` was sent never sends a
      signature; a `PKSIGN` in it aborts the session on the algorithm check. */
  lemma RunWithoutSetHashNeverSigns(dev: Device, lines: seq<string>)
    requires forall i :: 0 <= i < |lines| ==> CommandOf(lines[i]) != "SETHASH"
    ensures forall i :: 0 <= i < |Run(dev, lines).out| ==> IsFixedReply(Run(dev, lines).out[i])
  {
    ServeWithoutSetHash(dev, Init, lines);
    var rest := Serve(dev, Init, lines).out;
    assert forall i :: 0 < i < |[OkLine] + rest| ==> ([OkLine] + rest)[i] == rest[i - 1];
  }

  lemma {:induction false} ServeKeepsConsistent(dev: Device, st: Session, lines: seq<string>)
    requires Consistent(st)
    ensures Consistent(Serve(dev, st, lines).last)
    decreases |lines|
  {
    if lines != [] {
      var step := Step(dev, st, lines[0]);
      if step.outcome.Continue? {
        ServeKeepsConsistent(dev, step.next, lines[1..]);
      }
    }
  }

  /** In every session state the algorithm and the digest are either both
      set or both unset: a `PKSIGN` that passes the algorithm check always
      has a digest to sign. */
  lemma RunKeepsConsistent(dev: Device, lines: seq<string>)
    ensures Consistent(Run(dev, lines).last)
  {
    ServeKeepsConsistent(dev, Init, lines);
  }
}
