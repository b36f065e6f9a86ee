/** Which bookmarks the dead-link scan probes at all (`checkLinks`, src/options.js).

    The private-network test is the regular expression

        ^(10(\.([0-9]{1,3})){3})|(172\.(1[6-9]|2[0-9]|3[0-1])(\.[0-9]{1,3}){2})|(192\.168(\.[0-9]{1,3}){2})$

    whose `^` belongs to the first alternative only and whose `$` belongs to the last
    one only. It is modelled as written: a host is "private" when it STARTS with a
    10.x.x.x address, CONTAINS a 172.16-31.x.x address, or ENDS with a 192.168.x.x
    address. */
module HostFilter {
  import opened Common
  import opened UrlRecords

  /** `s` begins with "." followed by exactly `d` digits, 1 <= d <= 3. */
  predicate DotGroup(s: string, d: nat) {
    1 <= d <= 3 && d < |s| && s[0] == '.' && forall i :: 1 <= i <= d ==> IsDigit(s[i])
  }

  /** `s` is exactly `n` repetitions of `\.[0-9]{1,3}`. */
  predicate DotGroups(s: string, n: nat)
    decreases n
  {
    if n == 0 then |s| == 0
    else
      || (DotGroup(s, 1) && DotGroups(s[2..], n - 1))
      || (DotGroup(s, 2) && DotGroups(s[3..], n - 1))
      || (DotGroup(s, 3) && DotGroups(s[4..], n - 1))
  }

  /** `10(\.([0-9]{1,3})){3}`, matched against the whole of `s`. */
  predicate TenPattern(s: string) {
    |s| >= 2 && s[..2] == "10" && DotGroups(s[2..], 3)
  }

  /** `1[6-9]|2[0-9]|3[0-1]`, matched against the whole of `s`. */
  predicate SecondOctet172(s: string) {
    && |s| == 2
    && (|| (s[0] == '1' && '6' <= s[1] <= '9')
        || (s[0] == '2' && IsDigit(s[1]))
        || (s[0] == '3' && '0' <= s[1] <= '1'))
  }

  /** `172\.(1[6-9]|2[0-9]|3[0-1])(\.[0-9]{1,3}){2}`, matched against the whole of `s`. */
  predicate Pattern172(s: string) {
    |s| >= 6 && s[..4] == "172." && SecondOctet172(s[4..6]) && DotGroups(s[6..], 2)
  }

  /** `192\.168(\.[0-9]{1,3}){2}`, matched against the whole of `s`. */
  predicate Pattern192(s: string) {
    |s| >= 7 && s[..7] == "192.168" && DotGroups(s[7..], 2)
  }

  /** `privateIpRegex.test(host)` with the anchoring as written. */
  predicate IsPrivateHost(host: string) {
    || (exists j :: 0 <= j <= |host| && TenPattern(host[..j]))
    || (exists i, j :: 0 <= i <= j <= |host| && Pattern172(host[i..j]))
    || (exists i :: 0 <= i <= |host| && Pattern192(host[i..]))
  }

  /** The loopback and `.local` hosts the scan treats as alive. */
  predicate IsLocalHost(host: string) {
    host == "localhost" || host == "127.0.0.1" || EndsWith(host, ".local")
  }

  predicate IsWebProtocol(protocol: string) {
    protocol == "http:" || protocol == "https:"
  }

  /** The `filteredBookmarks` test of `checkLinks`: the lower-cased URL parses, is
      http or https, and its host is neither local nor private. */
  predicate ShouldProbe(parse: Parser, url: string) {
    match parse(ToLower(url))
    case None => false
    case Some(u) => IsWebProtocol(u.protocol) && !IsLocalHost(u.hostname) && !IsPrivateHost(u.hostname)
  }

  /** One octet as the pattern accepts it: one to three decimal digits. */
  predicate Octet(s: string) {
    1 <= |s| <= 3 && forall i :: 0 <= i < |s| ==> IsDigit(s[i])
  }

  /** A dot and an octet in front of `n` groups make `n + 1` groups. */
  lemma DotGroupsCons(o: string, rest: string, n: nat)
    requires Octet(o) && DotGroups(rest, n)
    ensures DotGroups("." + o + rest, n + 1)
  {
    var g := "." + o + rest;
    assert g[1 + |o|..] == rest;
    assert forall i :: 1 <= i <= |o| ==> g[i] == o[i - 1];
    assert DotGroup(g, |o|);
  }

  /** `.y.z` for octets `y`, `z` is two groups. */
  lemma TwoGroups(y: string, z: string)
    requires Octet(y) && Octet(z)
    ensures DotGroups("." + y + ("." + z), 2)
  {
    assert ("." + z)[1 + |z|..] == "";
    DotGroupsCons(z, "", 0);
    assert "." + z + "" == "." + z;
    DotGroupsCons(y, "." + z, 1);
  }

  /** Every dotted-quad address in the three private ranges 10.0.0.0/8, 172.16.0.0/12
      and 192.168.0.0/16 is caught by the pattern, so a URL on such a host is never
      probed. */
  lemma PrivateAddressesNotProbed(parse: Parser, url: string, u: UrlRecord, x: string, s: string, y: string, z: string)
    requires parse(ToLower(url)) == Some(u)
    requires Octet(y) && Octet(z)
    requires || (Octet(x) && u.hostname == "10." + x + ("." + y + ("." + z)))
             || (SecondOctet172(s) && u.hostname == "172." + s + ("." + y + ("." + z)))
             || u.hostname == "192.168" + ("." + y + ("." + z))
    ensures !ShouldProbe(parse, url)
  {
    TwoGroups(y, z);
    var tail := "." + y + ("." + z);
    if Octet(x) && u.hostname == "10." + x + tail {
      TenAddressIsPrivate(x, tail);
    } else if SecondOctet172(s) && u.hostname == "172." + s + tail {
      Address172IsPrivate(s, tail);
    } else {
      Address192IsPrivate(tail);
    }
  }

  lemma TenAddressIsPrivate(x: string, tail: string)
    requires Octet(x) && DotGroups(tail, 2)
    ensures IsPrivateHost("10." + x + tail)
  {
    var h := "10." + x + tail;
    DotGroupsCons(x, tail, 2);
    assert h[..2] == "10" && h[2..] == "." + x + tail;
    assert h[..|h|] == h;
  }

  lemma Address172IsPrivate(s: string, tail: string)
    requires SecondOctet172(s) && DotGroups(tail, 2)
    ensures IsPrivateHost("172." + s + tail)
  {
    var h := "172." + s + tail;
    assert h[..4] == "172." && h[4..6] == s && h[6..] == tail;
    assert h[0..|h|] == h;
  }

  lemma Address192IsPrivate(tail: string)
    requires DotGroups(tail, 2)
    ensures IsPrivateHost("192.168" + tail)
  {
    var h := "192.168" + tail;
    assert h[..7] == "192.168" && h[7..] == tail;
    assert h[0..] == h;
  }

  /** Because `^` binds the first alternative only, anything may follow a 10.x.x.x
      address. */
  lemma TenPrefixSuffices(t: string, rest: string)
    requires TenPattern(t)
    ensures IsPrivateHost(t + rest)
  {
    assert (t + rest)[..|t|] == t;
  }

  /** The 172.16-31.x.x alternative has no anchor at all: it may occur anywhere. */
  lemma Infix172Suffices(before: string, t: string, after: string)
    requires Pattern172(t)
    ensures IsPrivateHost(before + t + after)
  {
    var h := before + t + after;
    assert h[|before|..|before| + |t|] == t;
  }

  /** Because `$` binds the last alternative only, anything may precede a 192.168.x.x
      address. */
  lemma Suffix192Suffices(before: string, t: string)
    requires Pattern192(t)
    ensures IsPrivateHost(before + t)
  {
    assert (before + t)[|before|..] == t;
  }

  lemma DotGroupsExample()
    ensures DotGroups(".0.0.1", 3)
    ensures DotGroups(".1.1", 2)
    ensures DotGroups(".0.1", 2)
  {
    assert DotGroups("", 0);
    assert DotGroups(".1", 1) by { assert ".1"[2..] == ""; }
    assert DotGroups(".0.1", 2) by { assert ".0.1"[2..] == ".1"; }
    assert ".0.0.1"[2..] == ".0.1";
    assert DotGroups(".1.1", 2) by { assert ".1.1"[2..] == ".1"; }
  }

  lemma TenExample()
    ensures TenPattern("10.0.0.1")
  {
    DotGroupsExample();
    assert "10.0.0.1"[..2] == "10" && "10.0.0.1"[2..] == ".0.0.1";
  }

  /** Any host that merely starts with a 10.x.x.x address is skipped as private. */
  lemma TenPrefixedHostIsPrivate()
    ensures IsPrivateHost("10.0.0.1" + ".example.com")
  {
    TenExample();
    TenPrefixSuffices("10.0.0.1", ".example.com");
  }

  lemma Pattern172Example()
    ensures Pattern172("172.16.0.1")
  {
    DotGroupsExample();
    assert "172.16.0.1"[..4] == "172." && "172.16.0.1"[4..6] == "16" && "172.16.0.1"[6..] == ".0.1";
  }

  /** A host name that merely contains a 172.16.x.x address is skipped as private. */
  lemma Embedded172IsPrivate()
    ensures IsPrivateHost("host." + "172.16.0.1" + ".example.com")
  {
    Pattern172Example();
    Infix172Suffices("host.", "172.16.0.1", ".example.com");
  }

  /** A host without the digit '1' matches none of the alternatives. */
  lemma NoOneNotPrivate(host: string)
    requires forall i :: 0 <= i < |host| ==> host[i] != '1'
    ensures !IsPrivateHost(host)
  {
    forall j | 0 <= j <= |host| ensures !TenPattern(host[..j]) {
      if |host[..j]| >= 2 {
        assert host[..j][0] == host[0];
      }
    }
    forall i, j | 0 <= i <= j <= |host| ensures !Pattern172(host[i..j]) {
      if |host[i..j]| >= 6 {
        assert host[i..j][0] == host[i];
      }
    }
    forall i | 0 <= i <= |host| ensures !Pattern192(host[i..]) {
      if |host[i..]| >= 7 {
        assert host[i..][0] == host[i];
      }
    }
  }

  /** An http or https URL whose host is not local and has no digit '1' is probed:
      every private alternative needs a '1'. */
  lemma PublicHostProbed(parse: Parser, url: string, u: UrlRecord)
    requires parse(ToLower(url)) == Some(u)
    requires IsWebProtocol(u.protocol) && !IsLocalHost(u.hostname)
    requires forall i :: 0 <= i < |u.hostname| ==> u.hostname[i] != '1'
    ensures ShouldProbe(parse, url)
  {
    NoOneNotPrivate(u.hostname);
  }
}
