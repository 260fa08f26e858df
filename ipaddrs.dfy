/**
  `parse_socket_string` from swift/common/utils/ipaddrs.py: splits a host/port
  string into a host and a port. An IPv6 literal must be written in brackets
  (the host form of section 3.2.2 of RFC 3986), as in `[::1]` or `[::1]:11211`;
  anything else is a DNS name or IPv4 address with at most one `:`.
 */
module IpAddrs {
  import opened Wrappers
  import opened PyStr

  /** The port of a parsed socket string: the caller's default, or the text given. */
  datatype Port = Default | Text(text: string)

  /** The two ValueErrors `parse_socket_string` raises. */
  datatype ParseError =
    | InvalidIPv6        // starts with '[' but does not match IPV6_RE
    | UnbracketedIPv6    // two or more ':' outside brackets

  datatype Parsed = Ok(host: string, port: Port) | Err(error: ParseError)

  // ---------------------------------------------------------------------------
  // IPV6_RE = ^\[(?P<address>.*)\](:(?P<port>[0-9]+))?$
  // Python's `.` matches any character but '\n', and `$` matches at the end of
  // the string or just before a newline that ends it.
  // ---------------------------------------------------------------------------

  /**
    The part of IPV6_RE after the closing bracket, `(:(?P<port>[0-9]+))?$`,
    applied to `t`: None when it does not match, otherwise the port group
    (None when the optional group took no part in the match).
   */
  function MatchTail(t: string): (r: Option<Option<string>>)
    ensures r == Some(None) <==> t == "" || t == "\n"
    ensures r.Some? && r.value.Some? ==>
              |r.value.value| > 0 && AllDigits(r.value.value) &&
              (t == ":" + r.value.value || t == ":" + r.value.value + "\n")
  {
    var body := TailBody(t);
    if body == "" then
      assert |t| > 0 ==> t == t[..|t| - 1] + [t[|t| - 1]];
      Some(None)
    else if body[0] == ':' && |body| > 1 && AllDigits(body[1..]) then
      assert t == body || t == body + "\n";
      assert body == ":" + body[1..];
      Some(Some(body[1..]))
    else
      None
  }

  /** What is left for the port group once `$` has taken its optional final newline. */
  function TailBody(t: string): string {
    if |t| > 0 && t[|t| - 1] == '\n' then t[..|t| - 1] else t
  }

  /** A colon and digits, with or without a final newline, match with those digits as port. */
  lemma MatchTailPort(t: string, d: string)
    requires |d| > 0 && AllDigits(d) && (t == ":" + d || t == ":" + d + "\n")
    ensures MatchTail(t) == Some(Some(d))
  {
    if t == ":" + d {
      assert t[|t| - 1] == d[|d| - 1];
      assert TailBody(t) == ":" + d;
    } else {
      assert t[..|t| - 1] == ":" + d;
    }
    assert (":" + d)[1..] == d;
  }

  /**
    IPV6_RE matches `s` with an address group of length `k`: `s` is `[`, then
    `k` characters none of which is a newline, then `]`, then a tail that
    `MatchTail` accepts.
   */
  predicate Candidate(s: string, k: nat) {
    2 + k <= |s| && s[0] == '[' && s[k + 1] == ']' && '\n' !in s[1..k + 1] && MatchTail(s[k + 2..]).Some?
  }

  /**
    The greedy `.*`: the largest address length `k'` with `k' <= k` for which
    the rest of the pattern matches, found by backtracking from `k` down.
   */
  function Longest(s: string, k: int): (r: Option<nat>)
    decreases k + 1
    ensures r.Some? ==> r.value <= k && Candidate(s, r.value)
    ensures r.Some? ==> forall j: nat :: r.value < j <= k ==> !Candidate(s, j)
    ensures r.None? ==> forall j: nat :: j <= k ==> !Candidate(s, j)
  {
    if k < 0 then None
    else if Candidate(s, k) then Some(k)
    else Longest(s, k - 1)
  }

  /** `IPV6_RE.match(s)`: the address group and the port group, when it matches. */
  function MatchIPv6(s: string): (r: Option<(string, Option<string>)>)
    ensures r.None? <==> forall k: nat :: !Candidate(s, k)
    ensures r.Some? ==> Candidate(s, |r.value.0|) && r.value.0 == s[1..|r.value.0| + 1]
    ensures r.Some? ==> forall k: nat :: Candidate(s, k) ==> k <= |r.value.0|
    ensures r.Some? ==> Some(r.value.1) == MatchTail(s[|r.value.0| + 2..])
  {
    match Longest(s, |s| - 2)
    case None =>
      assert forall k: nat :: Candidate(s, k) ==> k <= |s| - 2;
      None
    case Some(k) =>
      var host := s[1..k + 1];
      assert |host| == k;
      assert forall j: nat :: Candidate(s, j) ==> j <= |s| - 2;
      Some((host, MatchTail(s[k + 2..]).value))
  }

  // ---------------------------------------------------------------------------
  // parse_socket_string
  // ---------------------------------------------------------------------------

  /**
    `parse_socket_string(s, default_port)`, with the default port left
    symbolic: a bracketed string must match IPV6_RE; otherwise no `:` means no
    port, one `:` separates host and port (the port is not checked), and more
    than one `:` is rejected.
   */
  function ParseSocketString(s: string): Parsed {
    if |s| > 0 && s[0] == '[' then
      match MatchIPv6(s)
      case None => Err(InvalidIPv6)
      case Some((host, port)) => Ok(host, if port.Some? then Text(port.value) else Default)
    else if ':' in s then
      var tokens := Split(s, ':');
      if |tokens| > 2 then Err(UnbracketedIPv6) else Ok(tokens[0], Text(tokens[1]))
    else
      Ok(s, Default)
  }

  /**
    What the parse says about its input: each error comes from its own case,
    a bracketed host is what lies between `[` and a `]` of the input, and an
    unbracketed input is the host, or the host, a `:` and the port text.
   */
  lemma ParseSplitsInput(s: string)
    ensures var r := ParseSocketString(s);
      && (r == Err(InvalidIPv6) ==> |s| > 0 && s[0] == '[')
      && (r == Err(UnbracketedIPv6) ==> !(|s| > 0 && s[0] == '[') && Count(s, ':') >= 2)
      && (r.Ok? && |s| > 0 && s[0] == '[' ==> IsPrefix("[" + r.host + "]", s))
      && (r.Ok? && !(|s| > 0 && s[0] == '[') ==>
            && ':' !in r.host
            && if r.port.Text? then ':' !in r.port.text && s == r.host + ":" + r.port.text else s == r.host)
  {
    if |s| > 0 && s[0] == '[' {
      BracketedParts(s);
    } else if ':' in s {
      ColonParts(s);
    } else {
      assert ParseSocketString(s) == Ok(s, Default);
    }
  }

  /** A bracketed string is refused as an invalid IPv6 address, or its host lies between `[` and a `]`. */
  lemma BracketedParts(s: string)
    requires |s| > 0 && s[0] == '['
    ensures var r := ParseSocketString(s);
      r == Err(InvalidIPv6) || (r.Ok? && IsPrefix("[" + r.host + "]", s))
  {
    if MatchIPv6(s).Some? {
      var m := MatchIPv6(s).value;
      assert ParseSocketString(s) == Ok(m.0, if m.1.Some? then Text(m.1.value) else Default);
      MatchParts(s);
      BracketsAround(s, |m.0|);
    } else {
      assert ParseSocketString(s) == Err(InvalidIPv6);
    }
  }

  /** `s` starts with `[`, `k` characters and `]`. */
  lemma BracketsAround(s: string, k: nat)
    requires k + 2 <= |s| && s[0] == '[' && s[k + 1] == ']'
    ensures IsPrefix("[" + s[1..k + 1] + "]", s)
  {
    assert s[..k + 2] == [s[0]] + s[1..k + 1] + [s[k + 1]];
  }

  /** An unbracketed string with a `:` is refused when it has several, and is otherwise host, `:` and port. */
  lemma ColonParts(s: string)
    requires !(|s| > 0 && s[0] == '[') && ':' in s
    ensures var r := ParseSocketString(s);
      || (r == Err(UnbracketedIPv6) && Count(s, ':') >= 2)
      || (r.Ok? && r.port.Text? && ':' !in r.host && ':' !in r.port.text && s == r.host + ":" + r.port.text)
  {
    var tokens := Split(s, ':');
    if |tokens| > 2 {
      assert ParseSocketString(s) == Err(UnbracketedIPv6);
    } else {
      assert Count(s, ':') > 0 by { CountZero(s, ':'); }
      assert |tokens| == 2;
      assert tokens[1..] == [tokens[1]];
      assert Join(tokens, ':') == tokens[0] + [':'] + Join(tokens[1..], ':');
      assert s == tokens[0] + ":" + tokens[1];
      assert ParseSocketString(s) == Ok(tokens[0], Text(tokens[1]));
    }
  }

  /** A bracketed string is refused exactly when IPV6_RE does not match it. */
  lemma BracketedRejected(s: string)
    requires |s| > 0 && s[0] == '['
    ensures ParseSocketString(s) == Err(InvalidIPv6) <==> forall k: nat :: !Candidate(s, k)
    ensures ParseSocketString(s).Ok? || ParseSocketString(s) == Err(InvalidIPv6)
  {
  }

  /**
    For a bracketed string that matches, the host is the longest bracket
    content the pattern allows, and the port is the digits after `]:`, or the
    default when there are none.
   */
  lemma BracketedHostIsGreedy(s: string)
    requires |s| > 0 && s[0] == '['
    requires ParseSocketString(s).Ok?
    ensures var host := ParseSocketString(s).host;
      && Candidate(s, |host|)
      && host == s[1..|host| + 1]
      && '\n' !in host
      && (forall k: nat :: Candidate(s, k) ==> k <= |host|)
    ensures var r := ParseSocketString(s);
      var tail := s[|r.host| + 2..];
      (r.port == Default <==> tail == "" || tail == "\n")
      && (r.port.Text? ==> |r.port.text| > 0 && AllDigits(r.port.text)
                            && (tail == ":" + r.port.text || tail == ":" + r.port.text + "\n"))
  {
    var m := MatchIPv6(s).value;
    assert ParseSocketString(s) == Ok(m.0, if m.1.Some? then Text(m.1.value) else Default);
    MatchParts(s);
  }

  /** The groups of a match of IPV6_RE, and the tail after the address. */
  lemma MatchParts(s: string)
    requires MatchIPv6(s).Some?
    ensures var m := MatchIPv6(s).value;
      var tail := s[|m.0| + 2..];
      && Candidate(s, |m.0|)
      && m.0 == s[1..|m.0| + 1]
      && '\n' !in m.0
      && (forall k: nat :: Candidate(s, k) ==> k <= |m.0|)
      && (m.1.None? <==> tail == "" || tail == "\n")
      && (m.1.Some? ==> |m.1.value| > 0 && AllDigits(m.1.value)
                         && (tail == ":" + m.1.value || tail == ":" + m.1.value + "\n"))
  {
    var m := MatchIPv6(s).value;
    assert MatchTail(s[|m.0| + 2..]) == Some(m.1);
  }

  /** An unbracketed string without `:` is all host, with the default port. */
  lemma NoColonIsHost(s: string)
    requires !(|s| > 0 && s[0] == '[') && ':' !in s
    ensures ParseSocketString(s) == Ok(s, Default)
  {
  }

  /**
    An unbracketed string with exactly one `:` splits there; the port text is
    taken as it is, even when empty or not numeric.
   */
  lemma OneColonSplits(s: string, i: nat)
    requires !(|s| > 0 && s[0] == '[')
    requires i < |s| && s[i] == ':' && Count(s, ':') == 1
    ensures ParseSocketString(s) == Ok(s[..i], Text(s[i + 1..]))
  {
    var t := Split(s, ':');
    assert s == Join(t, ':') == t[0] + [':'] + t[1];
    assert s == s[..i] + [':'] + s[i + 1..];
    CountSplit(s[..i], s[i + 1..]);
    IndexOfUnique(t[0], t[1], s[..i], s[i + 1..], ':');
  }

  lemma CountSplit(a: string, b: string)
    requires Count(a + [':'] + b, ':') == 1
    ensures ':' !in a && ':' !in b
  {
    assert a + [':'] + b == a + ([':'] + b);
    CountAppend(a, [':'] + b);
    assert ([':'] + b)[1..] == b;
    assert Count([':'] + b, ':') == 1 + Count(b, ':');
    CountZero(a, ':');
    CountZero(b, ':');
  }

  lemma {:induction false} CountAppend(a: string, b: string)
    ensures Count(a + b, ':') == Count(a, ':') + Count(b, ':')
  {
    if a == [] {
      assert a + b == b;
    } else {
      assert (a + b)[1..] == a[1..] + b;
      CountAppend(a[1..], b);
    }
  }

  /** An unbracketed string with two or more `:` is refused: IPv6 needs brackets. */
  lemma ManyColonsRejected(s: string)
    requires !(|s| > 0 && s[0] == '[') && Count(s, ':') >= 2
    ensures ParseSocketString(s) == Err(UnbracketedIPv6)
  {
    CountZero(s, ':');
  }

  /** Round trip, unbracketed: `h:p` parses back to `h` and `p`. */
  lemma RoundTripPlain(h: string, p: string)
    requires ':' !in h && ':' !in p && !(|h| > 0 && h[0] == '[')
    ensures ParseSocketString(h + ":" + p) == Ok(h, Text(p))
  {
    var s := h + ":" + p;
    assert s == h + [':'] + p;
    SplitOnce(h, p, ':');
    assert s[|h|] == ':';
  }

  /**
    Round trip, bracketed with a port: `[a]:d` parses back to `a` and `d`,
    even when `a` holds `]`, since the greedy group ends at the last `]`.
   */
  lemma RoundTripBracketed(a: string, d: string)
    requires '\n' !in a && |d| > 0 && AllDigits(d)
    ensures ParseSocketString("[" + a + "]:" + d) == Ok(a, Text(d))
  {
    var s := "[" + a + "]:" + d;
    var k := |a|;
    assert s[1..k + 1] == a;
    assert s[k + 2..] == ":" + d;
    MatchTailPort(":" + d, d);
    assert Candidate(s, k);
    OnlyBracketAt(s, a, ":" + d);
    var m := MatchIPv6(s).value;
    assert |m.0| == k;
    assert m.0 == a;
    assert m.1 == Some(d);
    assert ParseSocketString(s) == Ok(m.0, Text(m.1.value));
  }

  /** Round trip, bracketed without a port: `[a]` gives `a` and the default port, whatever `]` it holds. */
  lemma RoundTripBracketedDefault(a: string)
    requires '\n' !in a
    ensures ParseSocketString("[" + a + "]") == Ok(a, Default)
  {
    var s := "[" + a + "]";
    var k := |a|;
    assert s[1..k + 1] == a;
    assert s[k + 2..] == "";
    assert Candidate(s, k);
    OnlyBracketAt(s, a, "");
    var m := MatchIPv6(s).value;
    assert |m.0| == k;
    assert m.0 == a && m.1 == None;
    assert ParseSocketString(s) == Ok(m.0, Default);
  }

  /** When the tail is a port or nothing, it holds no `]`, so `|a|` is the longest candidate. */
  lemma OnlyBracketAt(s: string, a: string, tail: string)
    requires s == "[" + a + "]" + tail && (tail == "" || (tail[0] == ':' && AllDigits(tail[1..])))
    ensures forall k: nat :: Candidate(s, k) ==> k <= |a|
  {
    assert forall j :: |a| + 2 <= j < |s| ==> s[j] != ']' by {
      forall j | |a| + 2 <= j < |s| ensures s[j] != ']' {
        assert s[j] == tail[j - |a| - 2];
        if j - |a| - 2 > 0 {
          assert tail[j - |a| - 2] == tail[1..][j - |a| - 3];
        }
      }
    }
  }

  /** The greedy address group runs to the last `]`: `[x]y]:80` has host `x]y`. */
  lemma BracketInsideHost()
    ensures ParseSocketString("[x]y]:80") == Ok("x]y", Text("80"))
  {
    assert "[x]y]:80" == "[" + "x]y" + "]:" + "80";
    RoundTripBracketed("x]y", "80");
  }
}
