/** The forwarded-address walk (packages/utils/src/proxy-trust.ts): from the socket outward through
    `X-Forwarded-For`, as far as the hops are trusted. */
module ProxyTrust {
  import opened Text
  import opened Whitespace

  // ----- Addresses ------------------------------------------------------------------------------

  predicate IsDigits(s: string) {
    1 <= |s| <= 3 && forall i :: 0 <= i < |s| ==> '0' <= s[i] <= '9'
  }

  /** Four groups of one to three digits. */
  predicate IsDotted(s: string) {
    var parts := Split(s, '.');
    |parts| == 4 && IsDigits(parts[0]) && IsDigits(parts[1]) && IsDigits(parts[2]) && IsDigits(parts[3])
  }

  predicate IsF(c: char) {
    c == 'f' || c == 'F'
  }

  /** An IPv4 address written as an IPv6 one: `::ffff:` and the dotted form. */
  predicate IsMapped(s: string) {
    && |s| > 7 && s[0] == ':' && s[1] == ':' && IsF(s[2]) && IsF(s[3]) && IsF(s[4]) && IsF(s[5]) && s[6] == ':'
    && IsDotted(s[7..])
  }

  function NormalizeAddress(address: string): string {
    var trimmed := Trim(address);
    if IsMapped(trimmed) then trimmed[7..] else trimmed
  }

  /** The header as the runtime gives it: absent, one value, or one per occurrence. */
  datatype Header = Absent | One(value: string) | Many(values: seq<string>)

  function Joined(header: Header): string {
    match header
    case Absent => ""
    case One(value) => value
    case Many(values) => Join(values, ',')
  }

  function NormalizedEntries(parts: seq<string>): seq<string> {
    if parts == [] then []
    else
      var entry := NormalizeAddress(parts[0]);
      (if entry == "" then [] else [entry]) + NormalizedEntries(parts[1..])
  }

  /** The addresses the header names, leftmost first. */
  function ForwardedChain(header: Header): seq<string> {
    if header.Absent? then [] else NormalizedEntries(Split(Joined(header), ','))
  }

  function Reverse(s: seq<string>): (r: seq<string>)
    ensures |r| == |s|
  {
    if s == [] then [] else Reverse(s[1..]) + [s[0]]
  }

  /** The hops, nearest first: the socket, then the header from its right-hand end. */
  function Chain(socket: string, header: Header): (chain: seq<string>)
    ensures |chain| > 0
  {
    [NormalizeAddress(socket)] + Reverse(ForwardedChain(header))
  }

  // ----- The walk -------------------------------------------------------------------------------

  type HopTrust = (string, nat) -> bool

  /** The walk goes no further than this hop: it is not trusted to speak for the next, or what it said
      of the next is not an address. */
  predicate Settles(chain: seq<string>, hop: nat, trusted: HopTrust, isIP: string -> bool)
    requires hop < |chain|
  {
    !trusted(chain[hop], hop) || (hop + 1 < |chain| && !isIP(chain[hop + 1]))
  }

  /** The hop that is the client: the first that settles the walk, or the last of all. */
  ghost predicate IsClient(chain: seq<string>, hop: nat, trusted: HopTrust, isIP: string -> bool) {
    && hop < |chain|
    && (hop == |chain| - 1 || Settles(chain, hop, trusted, isIP))
    && forall k :: 0 <= k < hop ==> !Settles(chain, k, trusted, isIP)
  }

  function Client(chain: seq<string>, hop: nat, trusted: HopTrust, isIP: string -> bool): (r: nat)
    requires hop < |chain|
    requires forall k :: 0 <= k < hop ==> !Settles(chain, k, trusted, isIP)
    ensures IsClient(chain, r, trusted, isIP)
    decreases |chain| - hop
  {
    if hop == |chain| - 1 || Settles(chain, hop, trusted, isIP) then hop
    else Client(chain, hop + 1, trusted, isIP)
  }

  function ClientOf(chain: seq<string>, trusted: HopTrust, isIP: string -> bool): string
    requires |chain| > 0
  {
    chain[Client(chain, 0, trusted, isIP)]
  }

  lemma ClientIsUnique(chain: seq<string>, one: nat, other: nat, trusted: HopTrust, isIP: string -> bool)
    requires IsClient(chain, one, trusted, isIP) && IsClient(chain, other, trusted, isIP)
    ensures one == other
  {
  }

  method WalkChain(chain: seq<string>, trusted: HopTrust, isIP: string -> bool) returns (client: string)
    requires |chain| > 0
    ensures client == ClientOf(chain, trusted, isIP)
  {
    for hop := 0 to |chain| - 1
      invariant forall k :: 0 <= k < hop ==> !Settles(chain, k, trusted, isIP)
    {
      if !trusted(chain[hop], hop) || !isIP(chain[hop + 1]) {
        ClientIsUnique(chain, hop, Client(chain, 0, trusted, isIP), trusted, isIP);
        return chain[hop];
      }
    }
    ClientIsUnique(chain, |chain| - 1, Client(chain, 0, trusted, isIP), trusted, isIP);
    return chain[|chain| - 1];
  }

  /** No socket address, no client; otherwise the walk's answer. */
  method ClientAddressOf(socketAddress: Option<string>, forwardedFor: Header, trusted: HopTrust, isIP: string -> bool)
    returns (r: Option<string>)
    ensures socketAddress.None? || socketAddress.value == "" ==> r == None
    ensures socketAddress.Some? && socketAddress.value != "" ==>
              r == Some(ClientOf(Chain(socketAddress.value, forwardedFor), trusted, isIP))
  {
    if socketAddress.None? || socketAddress.value == "" {
      return None;
    }
    var client := WalkChain(Chain(socketAddress.value, forwardedFor), trusted, isIP);
    return Some(client);
  }

  // ----- What a sender can add --------------------------------------------------------------------

  /** A header with more written to its left. */
  function Prepended(prefix: string, header: Header): Header {
    match header
    case Absent => One(prefix)
    case One(value) => One(prefix + "," + value)
    case Many(values) => Many([prefix] + values)
  }

  lemma {:induction false} EntriesAppend(a: seq<string>, b: seq<string>)
    ensures NormalizedEntries(a + b) == NormalizedEntries(a) + NormalizedEntries(b)
  {
    if a == [] {
      assert a + b == b;
    } else {
      var entry := NormalizeAddress(a[0]);
      var head := if entry == "" then [] else [entry];
      calc {
        NormalizedEntries(a + b);
      == { assert (a + b)[0] == a[0] && (a + b)[1..] == a[1..] + b; }
        head + NormalizedEntries(a[1..] + b);
      == { EntriesAppend(a[1..], b); }
        head + (NormalizedEntries(a[1..]) + NormalizedEntries(b));
      ==
        NormalizedEntries(a) + NormalizedEntries(b);
      }
    }
  }

  lemma {:induction false} ReverseAppend(a: seq<string>, b: seq<string>)
    ensures Reverse(a + b) == Reverse(b) + Reverse(a)
  {
    if a == [] {
      assert a + b == b;
    } else {
      ReverseAppend(a[1..], b);
      assert (a + b)[1..] == a[1..] + b;
    }
  }

  lemma EmptyEntries()
    ensures NormalizedEntries([""]) == []
  {
    assert Trim("") == "";
    assert [""][1..] == [];
  }

  lemma EntriesOfPrefixed(prefix: string, value: string)
    ensures NormalizedEntries(Split(prefix + "," + value, ','))
         == NormalizedEntries(Split(prefix, ',')) + NormalizedEntries(Split(value, ','))
  {
    SplitAppend(prefix, value, ',');
    EntriesAppend(Split(prefix, ','), Split(value, ','));
  }

  lemma PrependedEntries(prefix: string, header: Header)
    ensures ForwardedChain(Prepended(prefix, header)) == ForwardedChain(One(prefix)) + ForwardedChain(header)
  {
    match header
    case Absent =>
    case One(value) =>
      EntriesOfPrefixed(prefix, value);
    case Many(values) =>
      if values == [] {
        assert [prefix] + values == [prefix];
        EmptyEntries();
      } else {
        assert ([prefix] + values)[1..] == values;
        EntriesOfPrefixed(prefix, Join(values, ','));
      }
  }

  /** What is written to the left of a header becomes hops beyond the ones it had. */
  lemma PrependingAddsOuterHops(socket: string, prefix: string, header: Header)
    ensures Chain(socket, Prepended(prefix, header))
         == Chain(socket, header) + Reverse(ForwardedChain(One(prefix)))
  {
    PrependedEntries(prefix, header);
    ReverseAppend(ForwardedChain(One(prefix)), ForwardedChain(header));
  }

  /** Some hop of the chain settles the walk. */
  ghost predicate Settled(chain: seq<string>, trusted: HopTrust, isIP: string -> bool) {
    exists hop :: 0 <= hop < |chain| && Settles(chain, hop, trusted, isIP)
  }

  /** Once a hop settles the walk, nothing beyond it is looked at. */
  lemma SettledIgnoresOuterHops(chain: seq<string>, outer: seq<string>, trusted: HopTrust, isIP: string -> bool)
    requires |chain| > 0 && Settled(chain, trusted, isIP)
    ensures ClientOf(chain + outer, trusted, isIP) == ClientOf(chain, trusted, isIP)
  {
    var longer := chain + outer;
    var hop := Client(chain, 0, trusted, isIP);
    forall k | 0 <= k < hop
      ensures !Settles(longer, k, trusted, isIP)
    {
      assert !Settles(chain, k, trusted, isIP);
      assert longer[k] == chain[k] && longer[k + 1] == chain[k + 1];
    }
    SettlesAtClient(chain, trusted, isIP);
    assert Settles(longer, hop, trusted, isIP);
    ClientIsUnique(longer, hop, Client(longer, 0, trusted, isIP), trusted, isIP);
  }

  lemma SettlesAtClient(chain: seq<string>, trusted: HopTrust, isIP: string -> bool)
    requires |chain| > 0 && Settled(chain, trusted, isIP)
    ensures Settles(chain, Client(chain, 0, trusted, isIP), trusted, isIP)
  {
    var hop := Client(chain, 0, trusted, isIP);
    var s :| 0 <= s < |chain| && Settles(chain, s, trusted, isIP);
    assert s >= hop;
  }

  /** With no hop to settle it, the walk ends at whatever address is written furthest out. */
  lemma UnsettledTakesTheOutermost(chain: seq<string>, address: string, trusted: HopTrust, isIP: string -> bool)
    requires |chain| > 0 && !Settled(chain, trusted, isIP) && isIP(address)
    ensures ClientOf(chain + [address], trusted, isIP) == address
  {
    var longer := chain + [address];
    forall k | 0 <= k < |chain|
      ensures !Settles(longer, k, trusted, isIP)
    {
      assert !Settles(chain, k, trusted, isIP);
    }
    ClientIsUnique(longer, |chain|, Client(longer, 0, trusted, isIP), trusted, isIP);
  }

  /** What a sender writes to the left of a settled chain changes nothing. */
  lemma SettledAnswerStands(socket: string, prefix: string, header: Header, trusted: HopTrust, isIP: string -> bool)
    requires Settled(Chain(socket, header), trusted, isIP)
    ensures ClientOf(Chain(socket, Prepended(prefix, header)), trusted, isIP)
         == ClientOf(Chain(socket, header), trusted, isIP)
  {
    PrependingAddsOuterHops(socket, prefix, header);
    SettledIgnoresOuterHops(Chain(socket, header), Reverse(ForwardedChain(One(prefix))), trusted, isIP);
  }

  /** And only then: as long as there is another address to write, what a sender adds leaves the answer
      alone exactly when a hop already in the chain settles the walk. */
  lemma SendersCannotChooseTheirAddress(socket: string, header: Header, other: string, trusted: HopTrust, isIP: string -> bool)
    requires IsPlain(other) && isIP(other) && other != ClientOf(Chain(socket, header), trusted, isIP)
    ensures Settled(Chain(socket, header), trusted, isIP) <==>
            forall prefix :: ClientOf(Chain(socket, Prepended(prefix, header)), trusted, isIP)
                          == ClientOf(Chain(socket, header), trusted, isIP)
  {
    var chain := Chain(socket, header);
    if Settled(chain, trusted, isIP) {
      forall prefix: string
        ensures ClientOf(Chain(socket, Prepended(prefix, header)), trusted, isIP) == ClientOf(chain, trusted, isIP)
      {
        SettledAnswerStands(socket, prefix, header, trusted, isIP);
      }
    } else {
      PrependingAddsOuterHops(socket, other, header);
      PlainEntry(other);
      UnsettledTakesTheOutermost(chain, other, trusted, isIP);
      assert ClientOf(Chain(socket, Prepended(other, header)), trusted, isIP) == other;
    }
  }

  /** An address in the form the walk itself uses: one entry, already normalised. */
  predicate IsPlain(a: string) {
    a != "" && ',' !in a && NormalizeAddress(a) == a
  }

  lemma PlainEntry(a: string)
    requires IsPlain(a)
    ensures Reverse(ForwardedChain(One(a))) == [a]
  {
    SplitPiece(a, ',');
    assert [a][1..] == [];
    assert NormalizedEntries([a]) == [a];
    assert Reverse([a]) == [] + [a];
  }

  // ----- The settings ---------------------------------------------------------------------------

  datatype Trust = NoTrust | Hops(hops: nat)

  function CompileProxyTrust(trust: Trust): HopTrust {
    match trust
    case NoTrust => (address, hop) => false
    case Hops(hops) => (address, hop) => hop < hops
  }

  /** Trusting nothing, the socket's address is the client, whatever the header says. */
  lemma NoTrustMeansTheSocket(socket: string, header: Header, isIP: string -> bool)
    ensures ClientOf(Chain(socket, header), CompileProxyTrust(NoTrust), isIP) == NormalizeAddress(socket)
  {
    var chain, trusted := Chain(socket, header), CompileProxyTrust(NoTrust);
    ClientIsUnique(chain, 0, Client(chain, 0, trusted, isIP), trusted, isIP);
  }

  /** How far out the chain holds addresses only, the socket aside. */
  function AddressRun(chain: seq<string>, hop: nat, isIP: string -> bool): (r: nat)
    requires hop < |chain|
    ensures hop <= r < |chain|
    ensures forall k :: hop < k <= r ==> isIP(chain[k])
    ensures r + 1 < |chain| ==> !isIP(chain[r + 1])
    decreases |chain| - hop
  {
    if hop + 1 < |chain| && isIP(chain[hop + 1]) then AddressRun(chain, hop + 1, isIP) else hop
  }

  /** Trusting a number of hops, the client is the hop that many out, or the last the chain can be followed to
      if that is nearer; and nothing further left can change the answer exactly when the chain is longer than
      the hops trusted or holds something that is not an address. */
  lemma HopsCountOutward(socket: string, header: Header, hops: nat, isIP: string -> bool)
    ensures var chain := Chain(socket, header);
            var run := AddressRun(chain, 0, isIP);
            && ClientOf(chain, CompileProxyTrust(Hops(hops)), isIP) == chain[if hops < run then hops else run]
            && (Settled(chain, CompileProxyTrust(Hops(hops)), isIP) <==> hops < |chain| || run + 1 < |chain|)
  {
    HopsOfChain(Chain(socket, header), hops, isIP);
  }

  lemma HopsOfChain(chain: seq<string>, hops: nat, isIP: string -> bool)
    requires |chain| > 0
    ensures var run := AddressRun(chain, 0, isIP);
            && ClientOf(chain, CompileProxyTrust(Hops(hops)), isIP) == chain[if hops < run then hops else run]
            && (Settled(chain, CompileProxyTrust(Hops(hops)), isIP) <==> hops < |chain| || run + 1 < |chain|)
  {
    var trusted := CompileProxyTrust(Hops(hops));
    var run := AddressRun(chain, 0, isIP);
    var hop := if hops < run then hops else run;
    forall k | 0 <= k < |chain| ensures Settles(chain, k, trusted, isIP) ==> hop <= k {
      FollowedSoFar(chain, hops, run, k, isIP);
    }
    FollowedSoFar(chain, hops, run, hop, isIP);
    ClientIsUnique(chain, hop, Client(chain, 0, trusted, isIP), trusted, isIP);
    if hops < |chain| || run + 1 < |chain| {
      assert Settles(chain, hop, trusted, isIP);
    }
    if k :| 0 <= k < |chain| && Settles(chain, k, trusted, isIP) {
      FollowedSoFar(chain, hops, run, k, isIP);
    }
  }

  /** A hop settles the walk when it is past the hops trusted, or what comes next is not an address. */
  lemma FollowedSoFar(chain: seq<string>, hops: nat, run: nat, k: nat, isIP: string -> bool)
    requires k < |chain| && run == AddressRun(chain, 0, isIP)
    ensures Settles(chain, k, CompileProxyTrust(Hops(hops)), isIP) ==> hops <= k || run <= k
    ensures Settles(chain, k, CompileProxyTrust(Hops(hops)), isIP) && k < hops ==> run + 1 < |chain|
    ensures k == run ==> (Settles(chain, k, CompileProxyTrust(Hops(hops)), isIP) <==> hops <= k || run + 1 < |chain|)
    ensures hops <= k ==> Settles(chain, k, CompileProxyTrust(Hops(hops)), isIP)
  {
    var next := k + 1;
    assert next < |chain| && next <= run ==> isIP(chain[next]);
  }

  // ----- One address, one identity ----------------------------------------------------------------

  lemma {:induction false} FirstPiece(s: string, c: char)
    requires Split(s, c)[0] != ""
    ensures s != "" && s[0] == Split(s, c)[0][0]
  {
  }

  lemma {:induction false} LastPiece(s: string, c: char)
    requires var parts := Split(s, c); parts[|parts| - 1] != ""
    ensures var parts := Split(s, c);
            var last := parts[|parts| - 1];
            s != "" && s[|s| - 1] == last[|last| - 1]
  {
    if |s| > 1 {
      var rest := Split(s[1..], c);
      var parts := Split(s, c);
      SomePiece(s[1..], c);
      if s[0] == c || |rest| > 1 {
        assert parts[|parts| - 1] == rest[|rest| - 1];
      }
      LastPiece(s[1..], c);
    }
  }

  lemma SomePiece(s: string, c: char)
    requires s != ""
    ensures Split(s, c) != [""]
  {
  }

  lemma DottedIsTight(s: string)
    requires IsDotted(s)
    ensures s != "" && '0' <= s[0] <= '9' && '0' <= s[|s| - 1] <= '9'
  {
    var parts := Split(s, '.');
    FirstPiece(s, '.');
    LastPiece(s, '.');
    assert IsDigits(parts[0]) && IsDigits(parts[3]);
  }

  lemma TightIsTrimmed(s: string)
    requires IsTight(s)
    ensures Trim(s) == s
  {
    TrimUnwraps("", s, "");
    assert "" + s + "" == s;
  }

  /** The dotted form is four groups of digits with dots between, and nothing else is. */
  lemma DottedExactlyWhen(s: string)
    ensures IsDotted(s) <==>
            exists a, b, c, d :: IsDigits(a) && IsDigits(b) && IsDigits(c) && IsDigits(d) && IsFour(s, a, b, c, d)
  {
    if IsDotted(s) {
      var parts := Split(s, '.');
      assert parts == [parts[0], parts[1], parts[2], parts[3]];
      JoinSplit(s, '.');
      JoinedFour(parts[0], parts[1], parts[2], parts[3]);
      assert IsFour(s, parts[0], parts[1], parts[2], parts[3]);
    }
    if a, b, c, d :| IsDigits(a) && IsDigits(b) && IsDigits(c) && IsDigits(d) && IsFour(s, a, b, c, d) {
      JoinedFour(a, b, c, d);
      assert '.' !in a && '.' !in b && '.' !in c && '.' !in d;
      SplitJoin([a, b, c, d], '.');
    }
  }

  predicate IsFour(s: string, a: string, b: string, c: string, d: string) {
    s == a + "." + b + "." + c + "." + d
  }

  lemma JoinedFour(a: string, b: string, c: string, d: string)
    ensures Join([a, b, c, d], '.') == a + "." + b + "." + c + "." + d
  {
    assert [a, b, c, d][1..] == [b, c, d] && [b, c, d][1..] == [c, d] && [c, d][1..] == [d];
    assert Join([d], '.') == d;
    assert Join([c, d], '.') == c + "." + d;
    assert Join([b, c, d], '.') == b + "." + (c + "." + d);
    assert Join([a, b, c, d], '.') == a + "." + (b + "." + (c + "." + d));
  }

  /** White space around an address is no part of it; and but for the mapped form an address is kept as it is. */
  lemma AddressIsUnwrapped(front: string, address: string, back: string)
    requires IsBlank(front) && IsBlank(back) && IsTight(address)
    ensures NormalizeAddress(front + address + back) == if IsMapped(address) then address[7..] else address
  {
    TrimUnwraps(front, address, back);
  }

  /** A dual-stack socket is not a second identity: the mapped form of an IPv4 address normalises to
      the address itself. */
  lemma MappedIsTheSameAddress(mapped: string, address: string)
    requires IsDotted(address) && IsMapped(mapped) && mapped[7..] == address
    ensures NormalizeAddress(mapped) == address == NormalizeAddress(address)
  {
    DottedIsTight(address);
    TightIsTrimmed(address);
    assert mapped[|mapped| - 1] == address[|address| - 1];
    TightIsTrimmed(mapped);
  }

  /** Without regard to the case of the only letter there is. */
  function FsLowered(s: string): (r: string)
    ensures |r| == |s|
  {
    seq(|s|, i requires 0 <= i < |s| => if s[i] == 'F' then 'f' else s[i])
  }

  /** Of seven characters before a dotted address, only the mapping prefix is taken off. */
  lemma OnlyTheMappingComesOff(prefix: string, address: string)
    requires |prefix| == 7 && !IsSpace(prefix[0]) && IsDotted(address)
    ensures NormalizeAddress(prefix + address) == if FsLowered(prefix) == "::ffff:" then address else prefix + address
  {
    var s := prefix + address;
    DottedIsTight(address);
    assert s[0] == prefix[0] && s[|s| - 1] == address[|address| - 1] && s[7..] == address;
    TightIsTrimmed(s);
    assert forall i :: 0 <= i < 7 ==> s[i] == prefix[i];
    var lowered := FsLowered(prefix);
    assert lowered == "::ffff:" <==>
      && lowered[0] == ':' && lowered[1] == ':' && lowered[2] == 'f' && lowered[3] == 'f'
      && lowered[4] == 'f' && lowered[5] == 'f' && lowered[6] == ':';
  }
}
