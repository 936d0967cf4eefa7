/** The handshake `headers` callback (relay/server.js:57-84): it finds the
    first response header matching /^Sec-WebSocket-Accept:\s*(.+)$/i and
    rewrites it to the legacy spelling `Sec-Websocket-Accept: V`. The
    regular expression is modelled exactly: an ASCII case-insensitive
    prefix, JavaScript's `\s`, and `.` excluding line terminators, with the
    backtracking the engine performs. */
module Handshake {
  import opened Wire
  import Ascii

  /** The header name as RFC 6455 (section 4.2.2) spells it, with its colon. */
  const AcceptName: string := "Sec-WebSocket-Accept:"

  /** What the rewrite writes: the legacy casing, a colon and one space. */
  const LegacyPrefix: string := "Sec-Websocket-Accept: "

  /** What the push at relay/server.js:82 would write. */
  const StandardPrefix: string := "Sec-WebSocket-Accept: "

  /** JavaScript's `\s`: the WhiteSpace and LineTerminator code points. */
  predicate IsSpace(c: char) {
    var n := c as int;
    (9 <= n <= 13) || n == 32 || n == 0xA0 || n == 0x1680 || (0x2000 <= n <= 0x200A) ||
    n == 0x2028 || n == 0x2029 || n == 0x202F || n == 0x205F || n == 0x3000 || n == 0xFEFF
  }

  /** The characters `.` does not match without the `s` flag. */
  predicate IsLineTerminator(c: char) {
    c == '\n' || c == '\r' || c as int == 0x2028 || c as int == 0x2029
  }

  predicate NoLineTerminator(s: string) {
    forall i :: 0 <= i < |s| ==> !IsLineTerminator(s[i])
  }

  /** The length of the longest all-`\s` prefix of `s`. */
  function LeadingSpace(s: string): (n: nat)
    ensures n <= |s|
    ensures forall i :: 0 <= i < n ==> IsSpace(s[i])
    ensures n < |s| ==> !IsSpace(s[n])
  {
    if s == [] || !IsSpace(s[0]) then 0 else 1 + LeadingSpace(s[1..])
  }

  /** The capture group of /^Sec-WebSocket-Accept:\s*(.+)$/i on `h`, or
      None when it does not match. `\s*` is greedy: the group starts after
      all leading white space, unless nothing would be left for `(.+)`, in
      which case it gives back the last white-space character. */
  function AcceptValue(h: string): (v: Option<string>)
    ensures v.Some? ==> Ascii.StartsWithFolded(h, AcceptName)
    ensures v.Some? ==> v.value != [] && NoLineTerminator(v.value)
  {
    if !Ascii.StartsWithFolded(h, AcceptName) then None
    else
      var rest := h[|AcceptName|..];
      var k := LeadingSpace(rest);
      if k < |rest| then
        if NoLineTerminator(rest[k..]) then Some(rest[k..]) else None
      else if k > 0 && !IsLineTerminator(rest[k - 1]) then Some(rest[k - 1..])
      else None
  }

  /** What a match captures: the whole rest of the header after the name
      and the longest run of white space, except that an all-white-space
      rest gives back its last character. */
  lemma AcceptValueIsSuffix(h: string)
    requires AcceptValue(h).Some?
    ensures var v := AcceptValue(h).value;
      && |AcceptName| + |v| <= |h|
      && h[|h| - |v|..] == v
      && (forall i :: |AcceptName| <= i < |h| - |v| ==> IsSpace(h[i]))
      && (!IsSpace(v[0]) || (|v| == 1 && forall i :: |AcceptName| <= i < |h| ==> IsSpace(h[i])))
  {
  }

  /** When the pattern matches: the name, up to case, then white space up
      to some point from which the header is nonempty and has no line
      terminator. */
  lemma AcceptValueMatches(h: string, k: int)
    requires Ascii.StartsWithFolded(h, AcceptName)
    requires |AcceptName| <= k < |h| && NoLineTerminator(h[k..])
    requires forall i :: |AcceptName| <= i < k ==> IsSpace(h[i])
    ensures AcceptValue(h).Some?
  {
    var rest := h[|AcceptName|..];
    var n := LeadingSpace(rest);
    assert forall i :: 0 <= i < k - |AcceptName| ==> rest[i] == h[|AcceptName| + i];
    if n < |rest| {
      assert forall i :: 0 <= i < |rest[n..]| ==> rest[n..][i] == h[k..][|AcceptName| + n - k + i];
    } else {
      assert rest[n - 1] == h[k..][|h| - 1 - k];
    }
  }

  /** The index of the first header the accept pattern matches. */
  function FirstAccept(lines: seq<string>): (r: Option<nat>)
    ensures r.Some? ==> r.value < |lines| && AcceptValue(lines[r.value]).Some?
    ensures r.Some? ==> forall j :: 0 <= j < r.value ==> AcceptValue(lines[j]).None?
    ensures r.None? ==> forall j :: 0 <= j < |lines| ==> AcceptValue(lines[j]).None?
    decreases |lines|
  {
    if lines == [] then None
    else if AcceptValue(lines[0]).Some? then Some(0)
    else
      var r := FirstAccept(lines[1..]);
      assert forall j :: 1 <= j < |lines| ==> lines[j] == lines[1..][j - 1];
      match r
      case None => None
      case Some(k) => Some(k + 1)
  }

  /** The first match is the one the contract of FirstAccept singles out. */
  lemma FirstAcceptAt(lines: seq<string>, i: nat)
    requires i < |lines| && AcceptValue(lines[i]).Some?
    requires forall j :: 0 <= j < i ==> AcceptValue(lines[j]).None?
    ensures FirstAccept(lines) == Some(i)
    decreases i
  {
    if i > 0 {
      assert AcceptValue(lines[0]).None?;
      FirstAcceptAt(lines[1..], i - 1);
    }
  }

  /** Some header starts with the accept name, in any letter case: the test
      at relay/server.js:80. */
  predicate HasAcceptName(lines: seq<string>) {
    exists j :: 0 <= j < |lines| && Ascii.StartsWithFolded(lines[j], AcceptName)
  }

  /** The written legacy header starts with the accept name up to case. */
  lemma LegacyHasAcceptName(v: string)
    ensures Ascii.StartsWithFolded(LegacyPrefix + v, AcceptName)
  {
    var h := LegacyPrefix + v;
    assert h[..|LegacyPrefix|] == LegacyPrefix;
    forall i | 0 <= i < |AcceptName| ensures Ascii.SameFolded(h[i], AcceptName[i]) {
      assert h[i] == LegacyPrefix[i];
    }
  }

  /** The callback's effect, as written: overwrite the first match with the
      legacy spelling, then push an RFC-cased copy only if no header starts
      with the accept name case-insensitively. */
  function AcceptRewrite(lines: seq<string>): (r: seq<string>)
    ensures FirstAccept(lines).None? ==> r == lines
    ensures FirstAccept(lines).Some? ==>
      var i := FirstAccept(lines).value;
      r == lines[i := LegacyPrefix + AcceptValue(lines[i]).value]
    ensures |r| == |lines|
  {
    match FirstAccept(lines)
    case None => lines
    case Some(i) =>
      var v := AcceptValue(lines[i]).value;
      var written := lines[i := LegacyPrefix + v];
      LegacyHasAcceptName(v);
      assert Ascii.StartsWithFolded(written[i], AcceptName);
      if HasAcceptName(written) then written else written + [StandardPrefix + v]
  }

  /** The legacy header re-matches with the value it was written with. */
  lemma {:induction false} LegacyRematches(h: string)
    requires AcceptValue(h).Some?
    ensures AcceptValue(LegacyPrefix + AcceptValue(h).value) == AcceptValue(h)
  {
    var v := AcceptValue(h).value;
    var rest := h[|AcceptName|..];
    var k := LeadingSpace(rest);
    var h' := LegacyPrefix + v;
    LegacyHasAcceptName(v);
    var rest' := h'[|AcceptName|..];
    assert rest' == [' '] + v;
    assert IsSpace(rest'[0]);
    assert rest'[1..] == v;
    if k < |rest| {
      assert v == rest[k..] && !IsSpace(v[0]);
      assert LeadingSpace(rest') == 1;
      assert rest'[1..] == v;
    } else {
      assert v == rest[k - 1..] && |v| == 1 && IsSpace(v[0]);
      assert LeadingSpace(rest'[1..]) == 1;
      assert LeadingSpace(rest') == 2 == |rest'|;
      assert rest'[1..] == v;
    }
  }

  /** Rewriting a second time changes nothing. */
  lemma {:induction false} AcceptRewriteIdempotent(lines: seq<string>)
    ensures AcceptRewrite(AcceptRewrite(lines)) == AcceptRewrite(lines)
  {
    if FirstAccept(lines).Some? {
      var i := FirstAccept(lines).value;
      var r := AcceptRewrite(lines);
      LegacyRematches(lines[i]);
      assert AcceptValue(r[i]) == AcceptValue(lines[i]);
      assert forall j :: 0 <= j < i ==> r[j] == lines[j];
      FirstAcceptAt(r, i);
      assert r[i := LegacyPrefix + AcceptValue(r[i]).value] == r;
    }
  }

  /** A client that looks the header up with its RFC casing, exactly. */
  predicate HasStandardCasing(lines: seq<string>) {
    exists j :: 0 <= j < |lines| && |AcceptName| <= |lines[j]| && lines[j][..|AcceptName|] == AcceptName
  }

  /** Against the comment at relay/server.js:55-56, no RFC-cased copy is
      kept: the one accept header of a typical response comes back only in
      the legacy casing. */
  lemma StandardCopyMissing()
    ensures
      var lines := [StatusLine, StandardPrefix + "abc="];
      AcceptRewrite(lines) == [StatusLine, LegacyPrefix + "abc="] &&
      !HasStandardCasing(AcceptRewrite(lines))
  {
    var lines := [StatusLine, StandardPrefix + "abc="];
    StatusLineIsNoAccept();
    StandardMatches("abc=");
    FirstAcceptAt(lines, 1);
    var r := AcceptRewrite(lines);
    assert r == lines[1 := LegacyPrefix + "abc="];
    assert r[0][0] != AcceptName[0];
    LegacyIsNotStandard("abc=");
  }

  /** The legacy spelling differs from the RFC one in its eighth letter. */
  lemma LegacyIsNotStandard(v: string)
    ensures (LegacyPrefix + v)[..|AcceptName|] != AcceptName
  {
    assert (LegacyPrefix + v)[..|AcceptName|][7] == 's' != AcceptName[7];
  }

  const StatusLine: string := "HTTP/1.1 101 Switching Protocols"

  lemma StatusLineIsNoAccept()
    ensures AcceptValue(StatusLine).None?
  {
    assert !Ascii.SameFolded(StatusLine[0], AcceptName[0]);
  }

  /** An RFC-cased header whose value starts with a character that is not
      white space matches with that value. */
  lemma StandardMatches(v: string)
    requires v != [] && !IsSpace(v[0]) && NoLineTerminator(v)
    ensures AcceptValue(StandardPrefix + v) == Some(v)
  {
    var h := StandardPrefix + v;
    assert h[..|AcceptName|] == AcceptName;
    var rest := h[|AcceptName|..];
    assert rest == [' '] + v;
    assert rest[1..] == v;
    assert LeadingSpace(rest) == 1;
  }

  /** The rewrite as the comment describes it: the test for an RFC-cased
      copy is case-sensitive, so the copy is pushed when the only accept
      header left is the rewritten one. */
  function IntendedRewrite(lines: seq<string>): (r: seq<string>)
    ensures FirstAccept(lines).None? ==> r == lines
  {
    match FirstAccept(lines)
    case None => lines
    case Some(i) =>
      var v := AcceptValue(lines[i]).value;
      var written := lines[i := LegacyPrefix + v];
      if HasStandardCasing(written) then written else written + [StandardPrefix + v]
  }

  /** The intended rewrite leaves both spellings: the legacy header with
      the accepted value, and an RFC-cased header (an RFC-cased header
      already present is kept; IntendedCopiesValue gives the value of the
      copy). */
  lemma IntendedKeepsBoth(lines: seq<string>)
    requires FirstAccept(lines).Some?
    ensures
      var r := IntendedRewrite(lines);
      var v := AcceptValue(lines[FirstAccept(lines).value]).value;
      (exists j :: 0 <= j < |r| && r[j] == LegacyPrefix + v) && HasStandardCasing(r)
  {
    var i := FirstAccept(lines).value;
    var v := AcceptValue(lines[i]).value;
    var written := lines[i := LegacyPrefix + v];
    var r := IntendedRewrite(lines);
    assert r[i] == LegacyPrefix + v;
    if !HasStandardCasing(written) {
      var last := |r| - 1;
      assert r[last] == StandardPrefix + v;
      assert r[last][..|AcceptName|] == AcceptName;
    }
  }

  /** When the response has a single accept header, the intended rewrite
      appends the RFC-cased copy carrying the accepted value. */
  lemma {:induction false} IntendedCopiesValue(lines: seq<string>)
    requires FirstAccept(lines).Some?
    requires forall j :: 0 <= j < |lines| && j != FirstAccept(lines).value ==>
      !Ascii.StartsWithFolded(lines[j], AcceptName)
    ensures StandardPrefix + AcceptValue(lines[FirstAccept(lines).value]).value in IntendedRewrite(lines)
  {
    var i := FirstAccept(lines).value;
    var v := AcceptValue(lines[i]).value;
    NoStandardAfterWrite(lines, i, v);
    IntendedAppends(lines, i, v);
  }

  lemma AppendedIsIn(s: seq<string>, x: string)
    ensures x in s + [x]
  {
    assert (s + [x])[|s|] == x;
  }

  /** Once the single accept header is respelled, no header has the RFC
      casing. */
  lemma NoStandardAfterWrite(lines: seq<string>, i: nat, v: string)
    requires i < |lines|
    requires forall j :: 0 <= j < |lines| && j != i ==> !Ascii.StartsWithFolded(lines[j], AcceptName)
    ensures !HasStandardCasing(lines[i := LegacyPrefix + v])
  {
    var written := lines[i := LegacyPrefix + v];
    LegacyIsNotStandard(v);
    forall j | 0 <= j < |written| && j != i && |AcceptName| <= |written[j]|
      ensures written[j][..|AcceptName|] != AcceptName
    {
      if written[j][..|AcceptName|] == AcceptName {
        StandardIsFolded(lines[j]);
      }
    }
  }

  /** Without an RFC-cased header after the respelling, the copy is
      appended. */
  lemma IntendedAppends(lines: seq<string>, i: nat, v: string)
    requires FirstAccept(lines) == Some(i) && AcceptValue(lines[i]) == Some(v)
    requires !HasStandardCasing(lines[i := LegacyPrefix + v])
    ensures StandardPrefix + v in IntendedRewrite(lines)
  {
    assert IntendedRewrite(lines) == lines[i := LegacyPrefix + v] + [StandardPrefix + v];
    AppendedIsIn(lines[i := LegacyPrefix + v], StandardPrefix + v);
  }

  /** The exact RFC casing is one of the spellings the `i` flag accepts. */
  lemma StandardIsFolded(s: string)
    requires |AcceptName| <= |s| && s[..|AcceptName|] == AcceptName
    ensures Ascii.StartsWithFolded(s, AcceptName)
  {
    forall k | 0 <= k < |AcceptName|
      ensures Ascii.SameFolded(s[k], AcceptName[k])
    {
      assert s[k] == s[..|AcceptName|][k];
    }
  }

  /** The corrected counterpart of StandardCopyMissing: the same response
      comes back with both spellings and the same value. */
  lemma IntendedStandardCopy()
    ensures
      var lines := [StatusLine, StandardPrefix + "abc="];
      IntendedRewrite(lines) == [StatusLine, LegacyPrefix + "abc=", StandardPrefix + "abc="]
  {
    var lines := [StatusLine, StandardPrefix + "abc="];
    StatusLineIsNoAccept();
    StandardMatches("abc=");
    FirstAcceptAt(lines, 1);
    var written := lines[1 := LegacyPrefix + "abc="];
    LegacyIsNotStandard("abc=");
    assert written[0][0] != AcceptName[0];
    assert !HasStandardCasing(written);
  }

  /** The intended rewrite, applied twice, adds nothing the second time. */
  lemma {:induction false} IntendedIdempotent(lines: seq<string>)
    ensures IntendedRewrite(IntendedRewrite(lines)) == IntendedRewrite(lines)
  {
    if FirstAccept(lines).Some? {
      var i := FirstAccept(lines).value;
      var v := AcceptValue(lines[i]).value;
      var written := lines[i := LegacyPrefix + v];
      var r := IntendedRewrite(lines);
      IntendedKeepsBoth(lines);
      LegacyRematches(lines[i]);
      assert r[..|lines|] == written;
      assert forall j :: 0 <= j < i ==> r[j] == lines[j];
      FirstAcceptAt(r, i);
      assert AcceptValue(r[i]) == Some(v);
      assert r[i := LegacyPrefix + v] == r;
    }
  }

  /** The header list the `ws` server is about to send; the callback
      rewrites it in place. */
  class Headers {
    var lines: seq<string>

    constructor (lines: seq<string>)
      ensures this.lines == lines
    {
      this.lines := lines;
    }

    /** The `headers` callback. */
    method RewriteAccept()
      modifies this
      ensures lines == AcceptRewrite(old(lines))
    {
      var acceptValue: Option<string> := None;
      var standardHeaderIndex: int := -1;
      var i := 0;
      while i < |lines|
        invariant 0 <= i <= |lines| && lines == old(lines)
        invariant acceptValue.None? && standardHeaderIndex == -1
        invariant forall j :: 0 <= j < i ==> AcceptValue(lines[j]).None?
      {
        var m := AcceptValue(lines[i]);
        if m.Some? {
          acceptValue := m;
          standardHeaderIndex := i;
          break;
        }
        i := i + 1;
      }
      if acceptValue.None? {
        return;
      }
      assert FirstAccept(lines) == Some(standardHeaderIndex);
      if standardHeaderIndex >= 0 {
        lines := lines[standardHeaderIndex := LegacyPrefix + acceptValue.value];
      } else {
        // relay/server.js:76 pushes the legacy header here; a match always
        // records its index, so this branch is never taken.
        assert false;
      }
      var hasStandardCasing := false;
      var k := 0;
      while k < |lines| && !hasStandardCasing
        invariant 0 <= k <= |lines|
        invariant hasStandardCasing ==> HasAcceptName(lines)
        invariant !hasStandardCasing ==> forall j :: 0 <= j < k ==> !Ascii.StartsWithFolded(lines[j], AcceptName)
      {
        if Ascii.StartsWithFolded(lines[k], AcceptName) {
          hasStandardCasing := true;
        }
        k := k + 1;
      }
      if !hasStandardCasing {
        lines := lines + [StandardPrefix + acceptValue.value];
      }
    }
  }
}
