# GPG agent protocol core of trezor-agent, in Dafny

This project models the protocol logic of the trezor-agent GPG agent
(`trezor_agent/gpg/agent.py`). The agent talks GnuPG's Assuan protocol with the
`gpg` binary and forwards signing requests to a hardware device. The model
covers three pieces:

- **Wire codec.** `serialize` percent-escapes `%`, line feed and carriage
  return for Assuan `D` data lines. It is modelled as the three successive
  `str.replace` passes the source performs (module `Assuan`).
  `sig_encode` puts two 32-byte big-endian numbers into the fixed `sig-val`
  S-expression template (module `Signature`).
- **Signing preconditions.** `pksign` checks in the source's order that the
  algorithm is `8` and that the resolved key's keygrip equals the unhexlified
  `SIGKEY` argument. Only then does it ask the device to sign the unhexlified
  digest. Each exception becomes a `Fault` (module `Agent`).
- **Session state machine.** `handle_connection` is `Step` (one loop
  iteration on one line), `Serve` (the loop) and `Run` (greeting plus loop).
  The session variables `keygrip`, `digest` and `algo` form an immutable
  `Session` record. A session ends when an unknown command makes it return,
  when an exception aborts it, or when the client disconnects.

The key registry and the signing device are not shown. They are modelled by a
`Device` value: the keygrip of the key the registry resolves (`None` if the
lookup raises) and a function from raw digest to `(r, s)` (`None` if the
device raises).

Each operation has a partner, and a lemma connects the two:

- `Serialize` has a single-pass reference escaper and a receiver-side
  `Unescape`.
- `SigEncode` has a decoder `SigDecode` and the canonical S-expression
  encoding `SExpr.Canonical`.
- `Split` has `Join`; `BigEndian` has `FromBigEndian`; `Unhexlify` has `Hexlify`.
- The session functions are related by fold, count and invariant lemmas.

Behaviour of the code worth knowing, which the model keeps:

- `GETINFO`, `AGENT_ID` and `PKSIGN` ignore any arguments
  (`trezor_agent/gpg/agent.py:66-76`).
- `PKSIGN` before `SIGKEY` (with the algorithm already `8`) aborts when
  `unhexlify(None)` raises, provided the key lookup succeeded. The model
  then reports `InvalidHex`; if the lookup failed, it reports
  `KeyUnavailable`, because the lookup runs first.
- On `EOFError`, `main` leaves the accept loop
  (`trezor_agent/gpg/agent.py:95-96`). `main` is not modelled (see below).

## Model

| member | source | states |
|---|---|---|
| `Text.ReplaceAll` | trezor_agent/gpg/agent.py:26 | `str.replace` with a one-character pattern: the text comes back unchanged when the pattern does not occur. The pattern never survives a replacement that does not contain it. A non-empty replacement never shortens the text. |
| `Text.ReplaceAllAbsent` | trezor_agent/gpg/agent.py:26 | A character found neither in the text nor in the replacement does not appear in the result. |
| `Text.Split` | trezor_agent/gpg/agent.py:61 | `line.split(' ')` gives at least one part, and no part contains a space. `JoinSplit` and `SplitJoin` show that this split is exact. |
| `Text.ReplaceAllAppend` | trezor_agent/gpg/agent.py:25-26 | Replacing a one-character pattern works piecewise over a concatenation, so a split point never straddles an occurrence. |
| `Text.JoinSplit` | trezor_agent/gpg/agent.py:61 | Splitting a line on single spaces loses nothing: joining the parts with spaces gives the line back. |
| `Text.SplitJoin` | trezor_agent/gpg/agent.py:61 | Converse: space-free parts are recovered by splitting their join, so the command/argument split is exact. |
| `Bytes.BigEndian` | trezor_agent/gpg/agent.py:32-33 | The fixed-width encoding of a number that fits has exactly k bytes and decodes back to the number. |
| `Bytes.BigEndianFromBigEndian` | trezor_agent/gpg/agent.py:32-33 | Every k-byte string is the encoding of the value it denotes, so the encoding is a bijection. |
| `Bytes.Format02X` | trezor_agent/gpg/agent.py:26 | `'{:02X}'.format(n)` for a byte: two hex digits, high first, that denote n, neither of them a lower-case letter. |
| `Bytes.Unhexlify` | trezor_agent/gpg/agent.py:45-46 | Hex decoding succeeds exactly on even-length strings of hex digits, in either case. It yields half as many bytes. Byte i is 16 times the value of digit 2i plus the value of digit 2i+1. |
| `Bytes.UnhexlifyHexlify` | trezor_agent/gpg/agent.py:45-46 | Hex decoding recovers every byte string from its hex text. This holds for upper case, which gpg sends, and for lower case. |
| `Assuan.PercentEscape` | trezor_agent/gpg/agent.py:26 | `'%{:02X}'.format(ord(c))`: three characters, a `%` and then two upper-case hex digits denoting the character code. |
| `Assuan.Serialize` | trezor_agent/gpg/agent.py:23-27 | The three replace passes leave no LF or CR and never shorten the text. Text without `%`, LF or CR comes back unchanged. `SerializeIsSinglePass` and `SerializeSpec` give its exact output and its inverse. |
| `Assuan.SerializeIsSinglePass` | trezor_agent/gpg/agent.py:23-27 | The three chained replace-all passes, `%` first, equal the single-pass map `%`→`%25`, LF→`%0A`, CR→`%0D`, everything else unchanged. Nothing is escaped twice. |
| `Assuan.SerializeSpec` | trezor_agent/gpg/agent.py:23-27 | The output has no LF or CR, and every `%` starts `%25`, `%0A` or `%0D`. Its length is the input length plus 2 per reserved character. The receiver unescapes it back to the input. |
| `Assuan.SerializeExamples` | trezor_agent/gpg/agent.py:23-27 | Between ordinary characters, a `%` becomes `%25` and a line feed becomes `%0A`. |
| `Assuan.UnescapeEscape` | trezor_agent/gpg/agent.py:23-27 | Unescaping the escaped text gives the original text, whatever follows it on the line. |
| `Signature.Num2Bytes32` | trezor_agent/gpg/agent.py:32-33 | A signature component below 2^256 becomes 32 bytes that decode back to it. |
| `Signature.SigEncode` | trezor_agent/gpg/agent.py:30-34 | The signature text is at least 101 characters long and ends with its only line feed. `SigDecodeEncode` and `SigEncodeIsCanonical` state what it encodes. |
| `Signature.SigEncodeIsOneLine` | trezor_agent/gpg/agent.py:30-34 | The signature text is one Assuan line. Its only line feed is the final character, it has no carriage return, and each `%` opens an escape. |
| `Signature.SigEncodeIsCanonical` | trezor_agent/gpg/agent.py:30-34 | Once unescaped, the payload is exactly the canonical encoding of `(sig-val (ecdsa (r R) (s S)))`, so the template's length prefixes match what they frame. |
| `Signature.SigDecodeEncode` | trezor_agent/gpg/agent.py:30-34 | A client decoding the line recovers exactly the (r, s) that was encoded. |
| `Signature.SigEncodeInjective` | trezor_agent/gpg/agent.py:30-34 | Distinct signatures give distinct lines. |
| `Signature.SigEncodeZero` | trezor_agent/gpg/agent.py:30-34 | For r = s = 0, the line is, character for character, `(7:sig-val(5:ecdsa(1:r32:` + 32 zero bytes + `)(1:s32:` + 32 zero bytes + `)))` and a line feed. |
| `SExpr.CanonicalEcdsaSigVal` | trezor_agent/gpg/agent.py:34 | The template `(7:sig-val(5:ecdsa(1:r32:…)(1:s32:…)))` is the canonical encoding of the ECDSA `sig-val` structure with 32-byte components. |
| `Agent.UnhexlifyVar` | trezor_agent/gpg/agent.py:45-46 | `binascii.unhexlify` on a session variable: it succeeds exactly when the variable is set to even-length hex text, and then yields the bytes that text denotes. An unset variable (`None`) makes it fail. |
| `Agent.Pksign` | trezor_agent/gpg/agent.py:37-49 | Signing succeeds iff all hold: algorithm is `8`, the key resolves, the `SIGKEY` keygrip unhexlifies to its keygrip, the digest unhexlifies, and the device signs. Any other algorithm fails first, on the algorithm check. A result is one line that decodes to the device's signature of the raw digest. |
| `Agent.Step` | trezor_agent/gpg/agent.py:59-81 | A completed command replies with an optional data line and then exactly one OK. An ending command replies nothing and changes nothing. The session ends on an unknown command exactly. Only `SIGKEY` changes the keygrip and only `SETHASH` changes algorithm and digest. "Algorithm set iff digest set" is preserved. |
| `Agent.CommandOf` | trezor_agent/gpg/agent.py:61-62 | The command is the first part of `line.split(' ')`, and it has no space. |
| `Agent.ArgsOf` | trezor_agent/gpg/agent.py:61-63 | The arguments are the remaining parts, and none of them has a space. |
| `Agent.CommandArgsJoin` | trezor_agent/gpg/agent.py:61-63 | The command and arguments, joined by single spaces, give the line back, so the split loses nothing. |
| `Agent.PksignReply` | trezor_agent/gpg/agent.py:74-81 | Given what `pksign` returned, `PKSIGN` completes exactly when it returned a signature. It then sends `D ` and the signature, followed by OK, and the session variables stay unchanged. Otherwise it aborts with that fault and sends nothing. |
| `Agent.Serve` | trezor_agent/gpg/agent.py:59-81 | The loop completes at most one command per line it reads. The client is still connected at the end exactly when every line it sent was completed. `ServeAppend` and the properties below describe the replies. |
| `Agent.Run` | trezor_agent/gpg/agent.py:54-81 | The first reply is the OK greeting. The session ends connected exactly when all lines were completed, and never completes more commands than lines. |
| `AgentProperties.StepNoOp` | trezor_agent/gpg/agent.py:64-65 | `RESET`, `OPTION`, `HAVEKEY` and `SETKEYDESC`, with any arguments, leave the session unchanged and reply OK only. |
| `AgentProperties.StepInfo` | trezor_agent/gpg/agent.py:66-69 | `GETINFO` replies `D 2.1.11` then OK. `AGENT_ID` replies `D TREZOR` then OK. Neither changes the session. |
| `AgentProperties.StepSigKey` | trezor_agent/gpg/agent.py:70-71 | `SIGKEY` with one argument sets only the keygrip. With any other count it aborts silently (unpacking error). |
| `AgentProperties.StepSetHash` | trezor_agent/gpg/agent.py:72-73 | `SETHASH` with two arguments sets only algorithm and digest. With any other count it aborts silently. |
| `AgentProperties.StepPksign` | trezor_agent/gpg/agent.py:74-76 | `PKSIGN` sends `D <sig>` then OK iff signing is allowed, and `<sig>` decodes to the device's signature. Otherwise it aborts with nothing sent. With an algorithm other than `8`, including unset, it aborts on the algorithm check. |
| `AgentProperties.StepUnknown` | trezor_agent/gpg/agent.py:77-79 | An unknown command ends the session with no reply. |
| `AgentProperties.ServeInsertStateless` | trezor_agent/gpg/agent.py:64-69 | Insert a no-op, `GETINFO` or `AGENT_ID` line while the session is still open. The output gains that command's fixed replies at that point and nothing else changes: the session variables stay the same, so the rest of the session runs as before. |
| `AgentProperties.RunSigningExchange` | trezor_agent/gpg/agent.py:54-81 | The exchange gpg runs to sign is `SIGKEY <kg>`, `SETHASH 8 <dg>`, `PKSIGN`, with space-free hex arguments. Take a device whose key has keygrip `unhexlify(kg)` and which signs `unhexlify(dg)` as (r, s). The client then gets OK, OK, OK, `D ` + `sig_encode(r, s)`, OK. The session stays open with all three variables set. |
| `AgentProperties.ServeAppend` | trezor_agent/gpg/agent.py:59-81 | The loop is a left fold over its input: output is produced online, and input after the session ends is never read. |
| `AgentProperties.RunIgnoresInputAfterEnd` | trezor_agent/gpg/agent.py:77-79 | Once a session has returned or aborted, appending more client lines changes nothing. |
| `AgentProperties.RunStopsAtUnknownCommand` | trezor_agent/gpg/agent.py:77-79 | Take the session up to an unknown command. If it was still open there, the full session is that prefix, now ended by the return; otherwise it is unchanged. Later lines are never processed. |
| `AgentProperties.RunOkCount` | trezor_agent/gpg/agent.py:58-81 | The output holds exactly one OK more than the number of completed commands: the greeting, plus one per completed command. |
| `AgentProperties.RunWellFormed` | trezor_agent/gpg/agent.py:58-81 | The first reply is the OK greeting, sent before any line is read. Every reply is one line. Every data line is immediately followed by OK. |
| `AgentProperties.RunWithoutSetHashNeverSigns` | trezor_agent/gpg/agent.py:54-76 | Fail closed: a session with no `SETHASH` only ever sends OK, `D 2.1.11` and `D TREZOR`, never a signature. |
| `AgentProperties.RunKeepsConsistent` | trezor_agent/gpg/agent.py:54-73 | In every reachable session the algorithm and the digest are both set or both unset. |

## Left out

- `yield_connections` and `main` (socket accept, timeouts, socket path, closing connections, logging setup) are I/O plumbing. Also not modelled: `main` ends on the first `EOFError`, and every other exception (each `Abort` fault of the model) propagates out of `main` too and stops the server (`trezor_agent/gpg/agent.py:91-96`).
- `keyring.recvline` is not part of this model. The client's input is a sequence of already-framed lines, and running out of lines stands for the `EOFError` of a disconnect.
- `keyring.export_public_key`, `decode.load_public_key` and `encode.Factory` are not part of this model. Their only effect here is the resolved key's keygrip, `Device.keygrip`, which is `None` when the lookup raises. It is fixed for the whole session. The source runs the lookup again on every `PKSIGN` (`trezor_agent/gpg/agent.py:40-43`), so a second `PKSIGN` could resolve another key or fail; the model does not cover that.
- `f.conn.sign` is the function `Device.sign`. It is deterministic and fixed for the session, so a repeated `PKSIGN` on the same digest gets the same answer. A real device may differ, for example when the user declines.
- The release of the signing capability by `contextlib.closing(f)` is not modelled, because it produces no output the client can see.
- `util.num2bytes` is not part of this model. It is specified as the 32-byte big-endian encoding, and device results are typed as integers below 2^256 (`U256`). Its behaviour on larger values is not guessed.
- `binascii.unhexlify` is modelled as Python 2 does it: odd length or a non-hex digit raises. `None` raises too. The exception's message and type are not distinguished.
- Logging calls are not modelled.
- The Python 2 str/bytes distinction is dropped: everything is a character sequence, and bytes are characters below 256.
- `main` serves one connection at a time inside its accept loop (agent.py:91-94); `Run` models one connection, and the loop over accepted connections is not modelled.
- Python's exception classes are not distinguished: each raise maps to one `Fault`, which aborts the session.
- Assertions are assumed enabled. Under `python -O`, the checks at `trezor_agent/gpg/agent.py:39` and `trezor_agent/gpg/agent.py:45` do not run, and `pksign` signs with the resolved key whatever `SIGKEY` named and whatever the algorithm is. `Pksign`'s "succeeds iff `SigningAllowed`" holds only with assertions enabled.
