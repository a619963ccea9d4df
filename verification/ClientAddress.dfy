/** Resolving the client address behind trusted proxies. */
module ClientAddress {
  import opened Basics

  datatype Error = MissingPeer | InvalidForwardedHeaders

  /** Address parsing, its canonical form, and the configured proxy networks. */
  datatype Network<!Ip> = Network(parse: Text -> Option<Ip>, canonical: Ip -> Ip, trusted: Ip -> bool)

  datatype Connection<Ip> = Connection(client: Ip, secure: bool, throughProxy: bool)

  /** `to_str`: visible ASCII, space and tab. Of such text `trim` takes away the
      blanks at both ends. */
  predicate Visible(line: Text) {
    forall i | 0 <= i < |line| :: 32 <= line[i] <= 126 || line[i] == 9
  }

  // ----- the chain of hops

  function Hop<Ip>(net: Network<Ip>, piece: Text): Option<Ip> {
    var address := Trim(piece);
    if address == [] then None
    else match net.parse(address) case None => None case Some(ip) => Some(net.canonical(ip))
  }

  function Hops<Ip>(net: Network<Ip>, pieces: seq<Text>): Option<seq<Ip>> {
    if pieces == [] then Some([])
    else
      match (Hop(net, pieces[0]), Hops(net, pieces[1..]))
      case (Some(ip), Some(rest)) => Some([ip] + rest)
      case _ => None
  }

  /** The hops of all header lines, left to right. */
  function Chain<Ip>(net: Network<Ip>, lines: seq<Text>): Option<seq<Ip>> {
    if lines == [] then Some([])
    else if !Visible(lines[0]) then None
    else
      match (Hops(net, Split(lines[0], COMMA)), Chain(net, lines[1..]))
      case (Some(ips), Some(rest)) => Some(ips + rest)
      case _ => None
  }

  /** Walks the chain from the right while the hop reached is trusted. */
  function Client<Ip>(net: Network<Ip>, chain: seq<Ip>, peer: Ip): Ip {
    if chain == [] || !net.trusted(peer) then peer
    else Client(net, chain[..|chain| - 1], chain[|chain| - 1])
  }

  ghost function Behind<T>(done: seq<T>, rest: Option<seq<T>>): Option<seq<T>> {
    match rest case None => None case Some(s) => Some(done + s)
  }

  lemma BehindStep<T>(a: seq<T>, b: seq<T>, rest: Option<seq<T>>)
    ensures Behind(a + b, rest) == Behind(a, Behind(b, rest))
  {
    if rest.Some? {
      assert a + b + rest.value == a + (b + rest.value);
    }
  }

  method ForwardedClientIp<Ip>(net: Network<Ip>, lines: seq<Text>, peer: Ip) returns (r: Result<Ip, Error>)
    ensures var chain := Chain(net, lines);
            r == if chain.None? then Err(InvalidForwardedHeaders) else Ok(Client(net, chain.value, peer))
  {
    hide Split, Trim, Visible;
    if lines == [] {
      return Ok(peer);
    }
    var chain: seq<Ip> := [];
    assert lines[0..] == lines;
    assert Chain(net, lines).Some? ==> chain + Chain(net, lines).value == Chain(net, lines).value;
    for n := 0 to |lines|
      invariant Chain(net, lines) == Behind(chain, Chain(net, lines[n..]))
    {
      assert lines[n..][1..] == lines[n + 1..];
      if !Visible(lines[n]) {
        return Err(InvalidForwardedHeaders);
      }
      var pieces := Split(lines[n], COMMA);
      ghost var before := chain;
      assert pieces[0..] == pieces;
      for k := 0 to |pieces|
        invariant Behind(before, Hops(net, pieces)) == Behind(chain, Hops(net, pieces[k..]))
      {
        assert pieces[k..][1..] == pieces[k + 1..];
        var address := Trim(pieces[k]);
        if address == [] {
          return Err(InvalidForwardedHeaders);
        }
        var ip := net.parse(address);
        if ip.None? {
          return Err(InvalidForwardedHeaders);
        }
        BehindStep(chain, [net.canonical(ip.value)], Hops(net, pieces[k + 1..]));
        chain := chain + [net.canonical(ip.value)];
      }
      assert pieces[|pieces|..] == [];
      assert Hops(net, pieces).Some? && before + Hops(net, pieces).value == chain;
      BehindStep(before, Hops(net, pieces).value, Chain(net, lines[n + 1..]));
    }
    assert lines[|lines|..] == [] && chain + [] == chain;
    var client, k := peer, |chain|;
    assert chain[..k] == chain;
    while k > 0 && net.trusted(client)
      invariant 0 <= k <= |chain| && Client(net, chain[..k], client) == Client(net, chain, peer)
    {
      assert chain[..k][..k - 1] == chain[..k - 1];
      client, k := chain[k - 1], k - 1;
    }
    r := Ok(client);
  }

  /** The result is the rightmost untrusted hop, or the leftmost one when all are
      trusted; everything to its right is trusted. */
  lemma {:induction false} RightmostUntrusted<Ip>(net: Network<Ip>, chain: seq<Ip>, peer: Ip) returns (k: nat)
    ensures var hops := chain + [peer];
            && k < |hops| && Client(net, chain, peer) == hops[k]
            && (forall i | k < i < |hops| :: net.trusted(hops[i]))
            && (k == 0 || !net.trusted(hops[k]))
  {
    if chain == [] || !net.trusted(peer) {
      k := |chain|;
    } else {
      var n := |chain| - 1;
      k := RightmostUntrusted(net, chain[..n], chain[n]);
      assert chain[..n] + [chain[n]] == chain;
    }
  }

  /** Hops claimed to the left of an untrusted result cannot change it. */
  lemma {:induction false} SpoofedHopsAreIgnored<Ip>(net: Network<Ip>, claimed: seq<Ip>, chain: seq<Ip>, peer: Ip)
    requires !net.trusted(Client(net, chain, peer))
    ensures Client(net, claimed + chain, peer) == Client(net, chain, peer)
  {
    if chain != [] && net.trusted(peer) {
      var n := |chain| - 1;
      assert (claimed + chain)[..|claimed + chain| - 1] == claimed + chain[..n];
      SpoofedHopsAreIgnored(net, claimed, chain[..n], chain[n]);
    }
  }

  lemma {:induction false} HopsJoined<Ip>(net: Network<Ip>, a: seq<Text>, b: seq<Text>)
    ensures Hops(net, a + b)
            == if Hops(net, a).None? || Hops(net, b).None? then None else Some(Hops(net, a).value + Hops(net, b).value)
  {
    if a == [] {
      assert a + b == b;
      assert Hops(net, b).Some? ==> [] + Hops(net, b).value == Hops(net, b).value;
    } else {
      assert (a + b)[1..] == a[1..] + b;
      HopsJoined(net, a[1..], b);
      if Hops(net, a).Some? && Hops(net, b).Some? {
        assert [Hop(net, a[0]).value] + (Hops(net, a[1..]).value + Hops(net, b).value)
            == Hops(net, a).value + Hops(net, b).value;
      }
    }
  }

  lemma FirstLine<Ip>(net: Network<Ip>, a: Text, behind: seq<Text>)
    ensures var x, z := Hops(net, Split(a, COMMA)), Chain(net, behind);
            Chain(net, [a] + behind) == if !Visible(a) || x.None? || z.None? then None else Some(x.value + z.value)
  {
    hide Hops, Split, Visible;
    assert ([a] + behind)[1..] == behind;
  }

  lemma VisibleJoined(a: Text, b: Text)
    ensures Visible(a + [COMMA] + b) <==> Visible(a) && Visible(b)
  {
    var joined := a + [COMMA] + b;
    assert forall i | 0 <= i < |a| :: joined[i] == a[i];
    assert forall i | 0 <= i < |b| :: b[i] == joined[|a| + 1 + i];
  }

  /** Splitting the list over several header lines means the same as one joined
      line (section 5.3 of RFC 9110). */
  lemma {:induction false} LinesJoin<Ip>(net: Network<Ip>, before: seq<Text>, a: Text, b: Text, behind: seq<Text>)
    ensures Chain(net, before + [a, b] + behind) == Chain(net, before + [a + [COMMA] + b] + behind)
  {
    hide Chain, Hops, Split, Visible;
    var joined := a + [COMMA] + b;
    if before == [] {
      assert before + [a, b] + behind == [a] + ([b] + behind) && before + [joined] + behind == [joined] + behind;
      FirstLine(net, a, [b] + behind);
      FirstLine(net, b, behind);
      FirstLine(net, joined, behind);
      VisibleJoined(a, b);
      SplitJoined(a, COMMA, b);
      HopsJoined(net, Split(a, COMMA), Split(b, COMMA));
      Associative(Hops(net, Split(a, COMMA)), Hops(net, Split(b, COMMA)), Chain(net, behind));
    } else {
      var two, one := before[1..] + [a, b] + behind, before[1..] + [joined] + behind;
      assert before + [a, b] + behind == [before[0]] + two && before + [joined] + behind == [before[0]] + one;
      FirstLine(net, before[0], two);
      FirstLine(net, before[0], one);
      LinesJoin(net, before[1..], a, b, behind);
    }
  }

  lemma Associative<T>(x: Option<seq<T>>, y: Option<seq<T>>, z: Option<seq<T>>)
    ensures x.Some? && y.Some? && z.Some? ==> x.value + (y.value + z.value) == (x.value + y.value) + z.value
  {
  }

  // ----- the scheme

  const HTTP: Text := [104, 116, 116, 112]
  const HTTPS: Text := [104, 116, 116, 112, 115]

  /** What one entry says: secure, insecure, or nothing sensible. */
  function Scheme(piece: Text): Option<bool> {
    var entry := Lower(Trim(piece));
    if entry == HTTP then Some(false) else if entry == HTTPS then Some(true) else None
  }

  ghost predicate LineSays(line: Text, secure: bool) {
    Visible(line) && forall piece | piece in Split(line, COMMA) :: Scheme(piece) == Some(secure)
  }

  /** All lines are visible and all their entries say `secure`. */
  ghost predicate AllSay(lines: seq<Text>, secure: bool) {
    forall i | 0 <= i < |lines| :: LineSays(lines[i], secure)
  }

  lemma LineSaysOne(line: Text)
    ensures !LineSays(line, true) || !LineSays(line, false)
  {
    var pieces := Split(line, COMMA);
    assert pieces[0] in pieces;
  }

  /** The entries of one line agree with each other and with `already`. */
  method LineScheme(line: Text, already: Option<bool>) returns (r: Option<bool>)
    ensures r.Some? ==> LineSays(line, r.value) && (already.Some? ==> r == already)
    ensures r.None? ==> forall secure :: LineSays(line, secure) ==> already == Some(!secure)
  {
    if !Visible(line) {
      return None;
    }
    var pieces := Split(line, COMMA);
    r := already;
    for k := 0 to |pieces|
      invariant already.Some? ==> r == already
      invariant if k > 0 then r.Some? else r == already
      invariant forall i | 0 <= i < k :: Scheme(pieces[i]) == r
    {
      assert pieces[k] in pieces && pieces[0] in pieces;
      var scheme := Scheme(pieces[k]);
      if scheme.None? || (r.Some? && r != scheme) {
        forall secure | LineSays(line, secure)
          ensures already == Some(!secure)
        {
          assert Scheme(pieces[k]) == Some(secure);
          assert Scheme(pieces[0]) == Some(secure);
          assert r.value == !secure;
        }
        return None;
      }
      r := scheme;
    }
  }

  /** Consistent entries decide, none means insecure, anything else is an error. */
  method ForwardedIsSecure(lines: seq<Text>) returns (r: Result<bool, Error>)
    ensures r == Ok(true) <==> lines != [] && AllSay(lines, true)
    ensures r == Ok(false) <==> AllSay(lines, false)
    ensures r.Err? ==> r.error == InvalidForwardedHeaders
  {
    var secure: Option<bool> := None;
    for n := 0 to |lines|
      invariant secure.None? <==> n == 0
      invariant forall i | 0 <= i < n :: LineSays(lines[i], secure.value)
    {
      var scheme := LineScheme(lines[n], secure);
      if scheme.None? {
        assert n > 0 ==> LineSays(lines[0], secure.value);
        LineSaysOne(lines[0]);
        return Err(InvalidForwardedHeaders);
      }
      secure := scheme;
    }
    if lines != [] {
      LineSaysOne(lines[0]);
    }
    r := Ok(if secure.Some? then secure.value else false);
  }

  // ----- resolution

  /** The peer itself unless it is a trusted proxy. */
  method Resolve<Ip>(net: Network<Ip>, peer: Option<Ip>, forwardedFor: seq<Text>, forwardedProto: seq<Text>)
    returns (r: Result<Connection<Ip>, Error>)
    ensures peer.None? ==> r == Err(MissingPeer)
    ensures peer.Some? && !net.trusted(net.canonical(peer.value)) ==> r == Ok(Connection(net.canonical(peer.value), false, false))
    ensures peer.Some? && net.trusted(net.canonical(peer.value)) ==>
              var chain := Chain(net, forwardedFor);
              && (r.Ok? <==> chain.Some? && (AllSay(forwardedProto, false) || AllSay(forwardedProto, true)))
              && (r.Err? ==> r.error == InvalidForwardedHeaders)
              && (r.Ok? ==> r.value == Connection(Client(net, chain.value, net.canonical(peer.value)),
                                                  forwardedProto != [] && AllSay(forwardedProto, true), true))
  {
    if peer.None? {
      return Err(MissingPeer);
    }
    var ip := net.canonical(peer.value);
    if !net.trusted(ip) {
      return Ok(Connection(ip, false, false));
    }
    var client := ForwardedClientIp(net, forwardedFor, ip);
    if client.Err? {
      return Err(client.error);
    }
    var secure := ForwardedIsSecure(forwardedProto);
    if secure.Err? {
      return Err(secure.error);
    }
    r := Ok(Connection(client.value, secure.value, true));
  }
}
