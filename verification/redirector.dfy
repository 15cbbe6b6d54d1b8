/** ServerRedirector.java: the Java variant of the reconciliation pass. It
    logs in, concatenates the online serials of three device states, keeps
    those listed in the serial file and sends the command to each in turn,
    giving up on the first failure. HTTP is replaced by `Transport` values and
    the JSON objects by the fields the code reads. */
module ServerRedirector {
  import opened Wrappers
  import opened Text
  import opened Seqs

  /** A JSON response object as the code reads it: whether it has an "error"
      key, its "code" as `getInt` sees it (None when `getInt` throws) and its
      "data" (None when `isNull("data")`, i.e. absent or JSON null). */
  datatype Response<P> = Response(hasError: bool, code: Option<int>, data: Option<P>)

  /** What the HTTP exchange of `sendRequest` meets: an exception before a
      status is known, or a status with its body (None when the body is not
      a JSON object, so its parsing throws). */
  datatype Transport<P> = Unreachable | Http(status: int, body: Option<Response<P>>)

  /** The "data" object of the login response: `LoginObject` with its
      "AccessToken" string (None when missing or not a string), or any other
      JSON value. */
  datatype LoginPayload = LoginObject(accessToken: Option<string>) | LoginOther

  /** An element of a systems array: an object with its "sys_sn" string
      (None when missing or not a string), or any other JSON value. */
  datatype Elem = ElemObject(sysSn: Option<string>) | ElemOther

  /** The "data" of a systems response: an object whose "data" is an array
      (`inner`, None when there is no such array), an array itself, or
      another JSON value. */
  datatype SystemsPayload = DataObject(inner: Option<seq<Elem>>) | DataArray(elems: seq<Elem>) | DataOther

  /** The three device states `getSystems` asks for, in this order. */
  const States: seq<string> := ["normal", "protection", "fault"]

  /** The remote service as one pass meets it. The command body is never
      read, so its payload type is the unit type. */
  datatype Server = Server(
    login: Transport<LoginPayload>,
    systems: string -> Transport<SystemsPayload>,
    command: string -> Transport<()>)

  // ---------------------------------------------------------------------
  // sendRequest

  /** An exchange that `sendRequest` turns into an error object. */
  predicate Failed<P>(t: Transport<P>)
  {
    t.Unreachable? || t.status >= 400 || t.body.None?
  }

  /** `sendRequest`: a status of 400 or more becomes `{code: status, error}`,
      an exception (including an unparsable body) `{code: 500, error}`;
      otherwise the parsed body is returned as it is. */
  function SendRequest<P>(t: Transport<P>): (r: Response<P>)
    ensures t.Http? && t.status >= 400 ==> r == Response(true, Some(t.status), None)
    ensures (t.Unreachable? || (t.status < 400 && t.body.None?)) ==> r == Response(true, Some(500), None)
    ensures !Failed(t) ==> r == t.body.value
  {
    match t
    case Unreachable => Response(true, Some(500), None)
    case Http(status, body) =>
      if status >= 400 then Response(true, Some(status), None)
      else if body.None? then Response(true, Some(500), None)
      else body.value
  }

  // ---------------------------------------------------------------------
  // login, sendCommand

  /** `login()`: the token, or None where the method throws (code not 200,
      no code, no "data" object or no "AccessToken" string). */
  function LoginToken(r: Response<LoginPayload>): (token: Option<string>)
    ensures token.Some? ==> r.code == Some(200)
    ensures token.Some? <==>
      r.code == Some(200) && r.data.Some? && r.data.value.LoginObject? && r.data.value.accessToken.Some?
  {
    if r.code != Some(200) then None
    else match r.data
      case Some(LoginObject(Some(token))) => Some(token)
      case _ => None
  }

  /** `sendCommand` returns normally (rather than throwing) exactly when the
      response has no "error" and its code is 200. */
  function CommandAccepted(r: Response<()>): bool
  {
    !r.hasError && r.code == Some(200)
  }

  // ---------------------------------------------------------------------
  // getSystemsForState, getSystems

  /** The array `getSystemsForState` iterates over: data.data when data is
      an object holding an array there, data itself when it is an array,
      nothing otherwise (null data, no inner array, another value). */
  function ElementsOf(data: Option<SystemsPayload>): (elems: seq<Elem>)
    ensures data.Some? && data.value.DataArray? ==> elems == data.value.elems
    ensures data.Some? && data.value.DataObject? && data.value.inner.Some? ==> elems == data.value.inner.value
    ensures data.None? || data.value.DataOther? || (data.value.DataObject? && data.value.inner.None?) ==> elems == []
  {
    match data
    case None => []
    case Some(DataObject(inner)) => if inner.Some? then inner.value else []
    case Some(DataArray(elems)) => elems
    case Some(DataOther) => []
  }

  predicate HasSysSn(e: Elem)
  {
    e.ElemObject? && e.sysSn.Some?
  }

  /** The "sys_sn" of every element in order, or None when reading one of
      them throws (an element that is not an object or has no such string). */
  function SysSns(elems: seq<Elem>): (r: Option<seq<string>>)
    ensures r.Some? <==> forall k :: 0 <= k < |elems| ==> HasSysSn(elems[k])
    ensures r.Some? ==> |r.value| == |elems| && forall k :: 0 <= k < |elems| ==> r.value[k] == elems[k].sysSn.value
  {
    if elems == [] then Some([])
    else if !HasSysSn(elems[0]) then None
    else
      var rest := SysSns(elems[1..]);
      if rest.None? then None else Some([elems[0].sysSn.value] + rest.value)
  }

  /** What `getSystemsForState` returns for a response: [] when it has an
      "error", when its code is not 200 (or unreadable) and when reading an
      element throws; otherwise the serials of its array, in order. */
  function StateSystems(r: Response<SystemsPayload>): (systems: seq<string>)
    ensures r.hasError || r.code != Some(200) ==> systems == []
    ensures SysSns(ElementsOf(r.data)).None? ==> systems == []
    ensures !r.hasError && r.code == Some(200) && SysSns(ElementsOf(r.data)).Some? ==>
      systems == SysSns(ElementsOf(r.data)).value
  {
    if r.hasError || r.code != Some(200) then []
    else
      var sns := SysSns(ElementsOf(r.data));
      if sns.None? then [] else sns.value
  }

  /** Both shapes of "data" give the same serials for the same array. */
  lemma TwoShapesAgree(hasError: bool, code: Option<int>, elems: seq<Elem>)
    ensures StateSystems(Response(hasError, code, Some(DataObject(Some(elems))))) ==
            StateSystems(Response(hasError, code, Some(DataArray(elems))))
  {
  }

  /** The loop collecting "sys_sn" of each element into a new list. */
  method CollectSysSns(elems: seq<Elem>) returns (r: Option<seq<string>>)
    ensures r.Some? <==> forall k :: 0 <= k < |elems| ==> HasSysSn(elems[k])
    ensures r.Some? ==> |r.value| == |elems| && forall k :: 0 <= k < |elems| ==> r.value[k] == elems[k].sysSn.value
  {
    var systems: seq<string> := [];
    for i := 0 to |elems|
      invariant |systems| == i
      invariant forall k :: 0 <= k < i ==> HasSysSn(elems[k]) && systems[k] == elems[k].sysSn.value
    {
      if !HasSysSn(elems[i]) {
        return None;
      }
      systems := systems + [elems[i].sysSn.value];
    }
    return Some(systems);
  }

  /** `getSystemsForState(state, token)` for the exchange `t`. */
  method GetSystemsForState(t: Transport<SystemsPayload>) returns (systems: seq<string>)
    ensures systems == StateSystems(SendRequest(t))
  {
    var response := SendRequest(t);
    if response.hasError {
      return [];
    }
    if response.code != Some(200) {
      return [];
    }
    systems := [];
    if response.data.Some? {
      var dataObj := response.data.value;
      if dataObj.DataObject? {
        if dataObj.inner.Some? {
          var collected := CollectSysSns(dataObj.inner.value);
          if collected.None? {
            return [];
          }
          systems := collected.value;
        }
      } else if dataObj.DataArray? {
        var collected := CollectSysSns(dataObj.elems);
        if collected.None? {
          return [];
        }
        systems := collected.value;
      }
    }
  }

  /** The result of `getSystems`: the per-state lists concatenated in the
      order normal, protection, fault, duplicates kept. */
  function AllSystems(systems: string -> Transport<SystemsPayload>): (r: seq<string>)
    ensures forall x :: x in r <==> exists k :: 0 <= k < 3 && x in StateSystems(SendRequest(systems(States[k])))
  {
    StateSystems(SendRequest(systems(States[0]))) +
    StateSystems(SendRequest(systems(States[1]))) +
    StateSystems(SendRequest(systems(States[2])))
  }

  /** Each state fails on its own: a failed exchange for one state only
      removes that state's serials, and a serial listed under two states
      appears twice. */
  lemma AllSystemsIsolatesFailures(systems: string -> Transport<SystemsPayload>, k: nat)
    requires k < 3 && Failed(systems(States[k]))
    ensures AllSystems(systems) ==
      (if k == 0 then [] else StateSystems(SendRequest(systems(States[0])))) +
      (if k == 1 then [] else StateSystems(SendRequest(systems(States[1])))) +
      (if k == 2 then [] else StateSystems(SendRequest(systems(States[2]))))
    ensures |AllSystems(systems)| ==
      |StateSystems(SendRequest(systems(States[0])))| + |StateSystems(SendRequest(systems(States[1])))| +
      |StateSystems(SendRequest(systems(States[2])))|
  {
    assert StateSystems(SendRequest(systems(States[k]))) == [];
  }

  /** `getSystems(token)`: the three states queried and their lists joined. */
  method GetSystems(systems: string -> Transport<SystemsPayload>) returns (online: seq<string>)
    ensures online == AllSystems(systems)
  {
    var normal := GetSystemsForState(systems(States[0]));
    var protection := GetSystemsForState(systems(States[1]));
    var fault := GetSystemsForState(systems(States[2]));
    online := normal + protection + fault;
  }

  /** A failed exchange is never taken for success by any caller: login
      throws, the state contributes nothing and the command throws. */
  lemma FailureIsVisible(login: Transport<LoginPayload>, systems: Transport<SystemsPayload>, command: Transport<()>)
    ensures Failed(login) ==> LoginToken(SendRequest(login)).None?
    ensures Failed(systems) ==> StateSystems(SendRequest(systems)) == []
    ensures Failed(command) ==> !CommandAccepted(SendRequest(command))
  {
  }

  // ---------------------------------------------------------------------
  // readSnList

  predicate IsLineTerminator(c: char)
  {
    c == '\n' || c == '\r'
  }

  /** Where the line starting at `pos` ends: the next '\n' or '\r', or the
      end of the text. */
  function LineEnd(content: string, pos: nat): (e: nat)
    requires pos <= |content|
    ensures pos <= e <= |content|
    ensures forall k :: pos <= k < e ==> !IsLineTerminator(content[k])
    ensures e < |content| ==> IsLineTerminator(content[e])
    decreases |content| - pos
  {
    if pos == |content| || IsLineTerminator(content[pos]) then pos else LineEnd(content, pos + 1)
  }

  /** `BufferedReader.readLine` at position `pos`: None at the end of the
      text, otherwise the line and the position after its terminator
      ("\n", "\r" or "\r\n"). */
  function ReadLine(content: string, pos: nat): (r: Option<(string, nat)>)
    requires pos <= |content|
    ensures r.None? <==> pos == |content|
    ensures r.Some? ==> pos < r.value.1 <= |content|
  {
    if pos == |content| then None
    else
      var e := LineEnd(content, pos);
      var next :=
        if e == |content| then e
        else if content[e] == '\r' && e + 1 < |content| && content[e + 1] == '\n' then e + 2
        else e + 1;
      Some((content[pos..e], next))
  }

  /** The lines `readLine` returns from `pos` on. */
  function LinesFrom(content: string, pos: nat): seq<string>
    requires pos <= |content|
    decreases |content| - pos
  {
    match ReadLine(content, pos)
    case None => []
    case Some((line, next)) => [line] + LinesFrom(content, next)
  }

  function Lines(content: string): seq<string>
  {
    LinesFrom(content, 0)
  }

  /** The entries of `readSnList`: every line trimmed, blank lines kept as
      empty strings, in file order. */
  function SnList(content: string): (sns: seq<string>)
    ensures |sns| == |Lines(content)|
    ensures forall k :: 0 <= k < |sns| ==> sns[k] == JavaTrim(Lines(content)[k])
  {
    Apply(Lines(content), JavaTrim)
  }

  /** A file written line by line, each line followed by `term`. */
  function TerminatedWith(lines: seq<string>, term: string): string
  {
    if lines == [] then "" else lines[0] + term + TerminatedWith(lines[1..], term)
  }

  /** Each line followed by '\n', the file the round trip below writes. */
  function Terminated(lines: seq<string>): string
  {
    if lines == [] then "" else lines[0] + "\n" + Terminated(lines[1..])
  }

  /** `Terminated` is `TerminatedWith` for the terminator '\n'. */
  lemma {:induction false} TerminatedIsNewlineCase(lines: seq<string>)
    ensures Terminated(lines) == TerminatedWith(lines, "\n")
  {
    if lines != [] {
      TerminatedIsNewlineCase(lines[1..]);
    }
  }

  /** For a text without '\r', writing each line read back followed by '\n'
      reproduces the text, with a final '\n' added when it had none: no
      character is lost or invented, and a trailing newline gives no extra
      empty line. */
  lemma {:induction false} LinesRoundTrip(content: string, pos: nat)
    requires pos <= |content|
    requires '\r' !in content
    ensures Terminated(LinesFrom(content, pos)) ==
      content[pos..] + (if pos == |content| || content[|content| - 1] == '\n' then "" else "\n")
    decreases |content| - pos
  {
    if pos < |content| {
      var e := LineEnd(content, pos);
      if e == |content| {
        LastLineRoundTrip(content, pos);
      } else {
        LinesRoundTrip(content, e + 1);
        NextLineRoundTrip(content, pos, e);
      }
    } else {
      assert LinesFrom(content, pos) == [];
      assert content[pos..] == "";
    }
  }

  /** Without '\r', a line read at `pos` ends at the next '\n', which is
      skipped, or at the end of the text. */
  lemma ReadLineWithoutCR(content: string, pos: nat, e: nat)
    requires pos < |content| && '\r' !in content
    requires e == LineEnd(content, pos) && e < |content|
    ensures content[e] == '\n'
    ensures LinesFrom(content, pos) == [content[pos..e]] + LinesFrom(content, e + 1)
  {
    assert content[e] in content;
    assert ReadLine(content, pos) == Some((content[pos..e], e + 1));
  }

  /** The last line, when it has no terminator, runs to the end of the text. */
  lemma ReadLastLine(content: string, pos: nat)
    requires pos < |content|
    requires LineEnd(content, pos) == |content|
    ensures LinesFrom(content, pos) == [content[pos..]]
  {
    var e := LineEnd(content, pos);
    assert content[pos..e] == content[pos..];
    assert ReadLine(content, pos) == Some((content[pos..], e));
    assert LinesFrom(content, e) == [];
  }

  /** A line ended by '\n' is read, and written back with its '\n',
      followed by the rest of the text. */
  lemma NextLineRoundTrip(content: string, pos: nat, e: nat)
    requires pos < |content| && '\r' !in content
    requires e == LineEnd(content, pos) && e < |content|
    requires Terminated(LinesFrom(content, e + 1)) ==
      content[e + 1..] + (if e + 1 == |content| || content[|content| - 1] == '\n' then "" else "\n")
    ensures Terminated(LinesFrom(content, pos)) ==
      content[pos..] + (if content[|content| - 1] == '\n' then "" else "\n")
  {
    ReadLineWithoutCR(content, pos, e);
    var rest := LinesFrom(content, e + 1);
    NextLineSlices(content, pos, e, rest);
  }

  /** A line ended by '\n' comes back with its '\n', followed by the rest. */
  lemma NextLineSlices(content: string, pos: nat, e: nat, rest: seq<string>)
    requires pos <= e < |content| && content[e] == '\n'
    requires Terminated(rest) ==
      content[e + 1..] + (if e + 1 == |content| || content[|content| - 1] == '\n' then "" else "\n")
    ensures Terminated([content[pos..e]] + rest) ==
      content[pos..] + (if content[|content| - 1] == '\n' then "" else "\n")
  {
    TerminatedCons(content[pos..e], rest);
    assert content[pos..e + 1] == content[pos..e] + "\n";
    assert content[pos..] == content[pos..e + 1] + content[e + 1..];
  }

  /** The last line, without a terminator, comes back with one added. */
  lemma LastLineRoundTrip(content: string, pos: nat)
    requires pos < |content| && '\r' !in content
    requires LineEnd(content, pos) == |content|
    ensures Terminated(LinesFrom(content, pos)) == content[pos..] + "\n"
    ensures content[|content| - 1] != '\n'
  {
    ReadLastLine(content, pos);
    TerminatedCons(content[pos..], []);
    assert [content[pos..]] + [] == [content[pos..]];
  }

  lemma TerminatedCons(line: string, rest: seq<string>)
    ensures Terminated([line] + rest) == line + "\n" + Terminated(rest)
  {
    assert ([line] + rest)[1..] == rest;
  }

  /** The line terminators `readLine` accepts. */
  predicate IsTerminator(term: string)
  {
    term == "\n" || term == "\r\n" || term == "\r"
  }

  predicate HasNoTerminator(line: string)
  {
    '\n' !in line && '\r' !in line
  }

  /** A file whose lines are all ended by the same terminator, "\n", "\r\n"
      or "\r", is read back as exactly those lines: "\r\n" counts as one
      terminator, and the final terminator gives no extra empty line. The
      entries of `readSnList` are then the trimmed lines. */
  lemma LinesOfTerminated(lines: seq<string>, term: string)
    requires IsTerminator(term)
    requires forall k :: 0 <= k < |lines| ==> HasNoTerminator(lines[k])
    ensures Lines(TerminatedWith(lines, term)) == lines
    ensures SnList(TerminatedWith(lines, term)) == Apply(lines, JavaTrim)
  {
    LinesFromTerminated("", lines, term);
    assert "" + TerminatedWith(lines, term) == TerminatedWith(lines, term);
  }

  /** Reading from the end of `pre` gives the lines written after it. */
  lemma {:induction false} LinesFromTerminated(pre: string, lines: seq<string>, term: string)
    requires IsTerminator(term)
    requires forall k :: 0 <= k < |lines| ==> HasNoTerminator(lines[k])
    ensures LinesFrom(pre + TerminatedWith(lines, term), |pre|) == lines
    decreases |lines|
  {
    if lines == [] {
      assert pre + TerminatedWith(lines, term) == pre;
    } else {
      var line, rest := lines[0], lines[1..];
      var pre' := pre + line + term;
      var tail := TerminatedWith(rest, term);
      assert pre + TerminatedWith(lines, term) == pre' + tail;
      if term == "\r" {
        FirstOfTerminated(rest, term);
      }
      ReadTerminatedLine(pre, line, term, tail);
      LinesFromTerminated(pre', rest, term);
      assert lines == [line] + rest;
    }
  }

  /** Text written with terminator "\r" never starts with '\n'. */
  lemma FirstOfTerminated(lines: seq<string>, term: string)
    requires term == "\r"
    requires forall k :: 0 <= k < |lines| ==> HasNoTerminator(lines[k])
    ensures TerminatedWith(lines, term) != [] ==> TerminatedWith(lines, term)[0] != '\n'
  {
    if lines != [] && lines[0] != [] {
      assert HasNoTerminator(lines[0]);
      assert lines[0][0] in lines[0];
    }
  }

  /** One `readLine` call on a line written with `term` returns the line and
      moves past its terminator. */
  lemma ReadTerminatedLine(pre: string, line: string, term: string, tail: string)
    requires IsTerminator(term) && HasNoTerminator(line)
    requires term == "\r" && tail != [] ==> tail[0] != '\n'
    ensures var content := pre + line + term + tail;
      |pre| < |content| &&
      LinesFrom(content, |pre|) == [line] + LinesFrom(content, |pre + line + term|)
  {
    var content := pre + line + term + tail;
    var e := |pre| + |line|;
    assert content[|pre|..e] == line;
    assert content[e] == term[0];
    LineEndAt(content, |pre|, line);
    if term == "\r\n" {
      assert content[e + 1] == '\n';
    } else if term == "\r" && e + 1 < |content| {
      assert content[e + 1] == tail[0];
    }
    assert ReadLine(content, |pre|) == Some((line, |pre + line + term|));
  }

  /** A line without terminator that is followed by one, or by the end of
      the text, is exactly where `LineEnd` stops. */
  lemma LineEndAt(content: string, pos: nat, line: string)
    requires pos + |line| <= |content| && content[pos..pos + |line|] == line
    requires HasNoTerminator(line)
    requires pos + |line| == |content| || IsLineTerminator(content[pos + |line|])
    ensures LineEnd(content, pos) == pos + |line|
  {
  }

  /** No line returned by `readLine` contains a line terminator. */
  lemma {:induction false} LinesHaveNoTerminator(content: string, pos: nat)
    requires pos <= |content|
    ensures forall line :: line in LinesFrom(content, pos) ==> '\n' !in line && '\r' !in line
    decreases |content| - pos
  {
    if pos < |content| {
      var e := LineEnd(content, pos);
      var next := ReadLine(content, pos).value.1;
      LinesHaveNoTerminator(content, next);
      var line := content[pos..e];
      forall c | c in line
        ensures c != '\n' && c != '\r'
      {
        var k :| 0 <= k < |line| && line[k] == c;
        assert content[pos + k] == c;
      }
    }
  }

  /** One more `readLine` call moves one line from the unread to the read. */
  lemma ReadOneLine(content: string, pos: nat, read: seq<string>)
    requires pos < |content|
    requires read + LinesFrom(content, pos) == Lines(content)
    ensures var (line, next) := ReadLine(content, pos).value;
      (read + [line]) + LinesFrom(content, next) == Lines(content)
  {
    var (line, next) := ReadLine(content, pos).value;
    assert LinesFrom(content, pos) == [line] + LinesFrom(content, next);
    assert read + ([line] + LinesFrom(content, next)) == (read + [line]) + LinesFrom(content, next);
  }

  /** `readSnList()` on the file's text: one trimmed entry per line. */
  method ReadSnList(content: string) returns (snList: seq<string>)
    ensures snList == SnList(content)
  {
    snList := [];
    var pos := 0;
    ghost var read: seq<string> := [];
    while true
      invariant pos <= |content|
      invariant read + LinesFrom(content, pos) == Lines(content)
      invariant snList == Apply(read, JavaTrim)
      decreases |content| - pos
    {
      var line := ReadLine(content, pos);
      if line.None? {
        break;
      }
      var (text, next) := line.value;
      ReadOneLine(content, pos, read);
      ApplyAppend(read, text, JavaTrim);
      read := read + [text];
      snList := snList + [JavaTrim(text)];
      pos := next;
    }
    assert LinesFrom(content, pos) == [];
    assert read == Lines(content);
  }

  // ---------------------------------------------------------------------
  // executeMainLogic

  /** `new ArrayList<>(list).retainAll(keep)` as `ArrayList` does it: the
      kept elements are moved to the front of the backing array in order and
      the new size is returned. */
  method RetainAll(a: array<string>, keep: seq<string>) returns (size: nat)
    modifies a
    ensures size <= a.Length
    ensures a[..size] == KeepIn(old(a[..]), keep)
  {
    ghost var s := a[..];
    var w := 0;
    for r := 0 to a.Length
      invariant w <= r
      invariant a[..w] == KeepIn(s[..r], keep)
      invariant forall k :: r <= k < a.Length ==> a[k] == s[k]
    {
      assert s[..r + 1] == s[..r] + [s[r]];
      if a[r] in keep {
        ghost var kept := a[..w];
        a[w] := a[r];
        assert a[..w + 1] == kept + [s[r]];
        w := w + 1;
      }
    }
    assert s[..a.Length] == s;
    size := w;
  }

  /** The serials the send loop gets to: all of them when every command is
      accepted, otherwise those up to and including the first rejected one. */
  function SentUntilFailure(toUpdate: seq<string>, accepted: string -> bool): (r: seq<string>)
    ensures |r| <= |toUpdate| && r == toUpdate[..|r|]
    ensures toUpdate != [] ==> r != []
  {
    if toUpdate == [] then []
    else if !accepted(toUpdate[0]) then [toUpdate[0]]
    else [toUpdate[0]] + SentUntilFailure(toUpdate[1..], accepted)
  }

  /** The sends are a prefix of the list, all accepted but possibly the
      last; the whole list when every send is accepted; otherwise exactly
      the list up to the first rejected serial. */
  lemma {:induction false} SentUntilFailureSpec(toUpdate: seq<string>, accepted: string -> bool, i: nat)
    requires i <= |toUpdate|
    requires forall k :: 0 <= k < i ==> accepted(toUpdate[k])
    ensures i == |toUpdate| ==> SentUntilFailure(toUpdate, accepted) == toUpdate
    ensures i < |toUpdate| && !accepted(toUpdate[i]) ==> SentUntilFailure(toUpdate, accepted) == toUpdate[..i + 1]
  {
    if i > 0 {
      SentUntilFailureSpec(toUpdate[1..], accepted, i - 1);
      assert toUpdate == [toUpdate[0]] + toUpdate[1..];
      if i < |toUpdate| {
        assert toUpdate[..i + 1] == [toUpdate[0]] + toUpdate[1..][..i];
      }
    }
  }

  function Accepts(server: Server): string -> bool
  {
    sn => CommandAccepted(SendRequest(server.command(sn)))
  }

  /** The serials a successful login and file read lead to: the online
      list with every serial missing from the file removed. */
  function SystemsToUpdate(server: Server, snFile: string): (r: seq<string>)
    ensures forall x :: x in r <==> x in AllSystems(server.systems) && x in SnList(snFile)
  {
    KeepIn(AllSystems(server.systems), SnList(snFile))
  }

  /** The first serial whose command fails (the exchange fails, or the
      reply carries "error" or a code other than 200) is the last one sent,
      and the send loop does not complete. */
  lemma RejectedCommandEndsPass(server: Server, toUpdate: seq<string>, i: nat)
    requires i < |toUpdate|
    requires forall k :: 0 <= k < i ==> Accepts(server)(toUpdate[k])
    requires var t := server.command(toUpdate[i]);
      Failed(t) || t.body.value.hasError || t.body.value.code != Some(200)
    ensures var sent := SentUntilFailure(toUpdate, Accepts(server));
      && sent == toUpdate[..i + 1]
      && sent[|sent| - 1] == toUpdate[i]
      && !(forall k :: 0 <= k < |toUpdate| ==> Accepts(server)(toUpdate[k]))
  {
    assert !Accepts(server)(toUpdate[i]);
    SentUntilFailureSpec(toUpdate, Accepts(server), i);
  }

  /** `executeMainLogic()`: `sent` are the serials a command was sent for,
      in order; `completed` says whether the pass ran to its end. `snFile`
      is the serial file's text, None when it cannot be read. */
  method ExecuteMainLogic(server: Server, snFile: Option<string>) returns (sent: seq<string>, completed: bool)
    ensures LoginToken(SendRequest(server.login)).None? || snFile.None? ==> sent == [] && !completed
    ensures LoginToken(SendRequest(server.login)).Some? && snFile.Some? ==>
      && sent == SentUntilFailure(SystemsToUpdate(server, snFile.value), Accepts(server))
      && (completed <==> forall k :: 0 <= k < |SystemsToUpdate(server, snFile.value)| ==>
                           Accepts(server)(SystemsToUpdate(server, snFile.value)[k]))
  {
    sent, completed := [], false;
    var token := LoginToken(SendRequest(server.login));
    if token.None? {
      return;
    }
    var onlineSystems := GetSystems(server.systems);
    if snFile.None? {
      return;
    }
    var snList := ReadSnList(snFile.value);
    var systemsToUpdate := RetainedCopy(onlineSystems, snList);
    sent, completed := SendAll(server, systemsToUpdate);
  }

  /** `new ArrayList<>(onlineSystems)` followed by `retainAll(snList)`. */
  method RetainedCopy(onlineSystems: seq<string>, snList: seq<string>) returns (systemsToUpdate: seq<string>)
    ensures systemsToUpdate == KeepIn(onlineSystems, snList)
  {
    var buffer := new string[|onlineSystems|](k requires 0 <= k < |onlineSystems| => onlineSystems[k]);
    assert buffer[..] == onlineSystems;
    var size := RetainAll(buffer, snList);
    systemsToUpdate := buffer[..size];
  }

  /** The send loop: one command per serial in order; the first rejected
      command throws out of the loop, so nothing after it is sent. */
  method SendAll(server: Server, systemsToUpdate: seq<string>) returns (sent: seq<string>, completed: bool)
    ensures sent == SentUntilFailure(systemsToUpdate, Accepts(server))
    ensures completed <==> forall k :: 0 <= k < |systemsToUpdate| ==> Accepts(server)(systemsToUpdate[k])
  {
    sent, completed := [], false;
    var accepted := Accepts(server);
    var i := 0;
    while i < |systemsToUpdate|
      invariant i <= |systemsToUpdate|
      invariant sent == systemsToUpdate[..i]
      invariant forall k :: 0 <= k < i ==> accepted(systemsToUpdate[k])
    {
      var sn := systemsToUpdate[i];
      sent := sent + [sn];
      if !CommandAccepted(SendRequest(server.command(sn))) {
        SentUntilFailureSpec(systemsToUpdate, accepted, i);
        return;
      }
      i := i + 1;
    }
    SentUntilFailureSpec(systemsToUpdate, accepted, i);
    completed := true;
  }
}
