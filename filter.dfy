/**
 * The domain blocklist (`is_blocked`): a host is blocked when, lower-cased
 * and without one leading `www.`, it is a listed domain or a subdomain of one.
 */
module Filter {
  import opened Wrappers
  import opened PyStr

  /** `BLOCKED_DOMAINS`, in the order the source lists them. */
  const BlockedDomains: seq<string> := ["varzesh3.com", "digikala.com", "aparat.com", "divar.ir", "test.com"]

  /** The host as it is compared: lower-cased, one leading `www.` removed. */
  function Normalize(host: string): (h: string)
    ensures |h| <= |host| && h == Lower(host)[|host| - |h|..]
    ensures StartsWith(Lower(host), "www.") ==> |h| == |host| - 4
    ensures !StartsWith(Lower(host), "www.") ==> h == Lower(host)
  {
    var h := Lower(host);
    if StartsWith(h, "www.") then h[4..] else h
  }

  /** `h` is the domain `d` itself or one of its subdomains. */
  predicate UnderDomain(h: string, d: string): (b: bool)
    ensures b <==> h == d || exists sub :: h == sub + ("." + d)
  {
    h == d || EndsWith(h, "." + d)
  }

  /** The verdict `is_blocked` should give: some listed domain covers the normalised host. */
  predicate Blocked(host: Option<string>)
    ensures Blocked(host) ==> host.Some? && |host.value| >= |"divar.ir"|
  {
    assert forall d :: d in BlockedDomains ==> |d| >= |"divar.ir"|;
    host.Some? && exists d :: d in BlockedDomains && UnderDomain(Normalize(host.value), d)
  }

  /**
   * `is_blocked`: no host or an empty one is never blocked; otherwise the
   * normalised host is looked up in the list, then every listed domain is
   * tried as a suffix after a dot.
   */
  method IsBlocked(host: Option<string>) returns (blocked: bool)
    ensures blocked == Blocked(host)
  {
    if host.None? || host.value == "" {
      if host.Some? {
        EmptyNeverBlocked();
      }
      return false;
    }
    var h := Normalize(host.value);
    if h in BlockedDomains {
      return true;
    }
    for i := 0 to |BlockedDomains|
      invariant forall k :: 0 <= k < i ==> !UnderDomain(h, BlockedDomains[k])
    {
      if EndsWith(h, "." + BlockedDomains[i]) {
        assert UnderDomain(h, BlockedDomains[i]);
        return true;
      }
    }
    return false;
  }

  /** The empty host matches no listed domain. */
  lemma EmptyNeverBlocked()
    ensures !Blocked(Some(""))
  {
    assert Normalize("") == "";
  }

  /** Letter case never changes the verdict. */
  lemma CaseInsensitive(host: string)
    ensures Blocked(Some(host)) == Blocked(Some(Lower(host)))
  {
    LowerIdempotent(host);
  }

  /** No listed domain itself begins with `www.`. */
  lemma ListedDomainsWithoutWww(d: string)
    requires d in BlockedDomains
    ensures !StartsWith(d, "www.")
  {
    assert d[0] != 'w';
  }

  /** A listed domain, in any letter case and with or without `www.`, is blocked. */
  lemma ListedDomainBlocked(d: string, host: string)
    requires d in BlockedDomains
    requires Lower(host) == d || Lower(host) == "www." + d
    ensures Blocked(Some(host))
  {
    var h := Lower(host);
    if h == "www." + d {
      assert h[..4] == "www.";
      assert h[4..] == d;
    } else {
      ListedDomainsWithoutWww(d);
    }
  }

  /**
   * A host whose lower-cased form ends in `"." + d` for a listed `d` is
   * blocked, whether or not it starts with `www.`.
   */
  lemma SubdomainBlocked(d: string, host: string)
    requires d in BlockedDomains
    requires EndsWith(Lower(host), "." + d)
    ensures Blocked(Some(host))
  {
    var h := Lower(host);
    if StartsWith(h, "www.") {
      WwwSubdomain(d, h);
      assert UnderDomain(Normalize(host), d);
    } else {
      assert UnderDomain(Normalize(host), d);
    }
  }

  /** Dropping a leading `www.` keeps a subdomain of a listed domain under it. */
  lemma WwwSubdomain(d: string, h: string)
    requires d in BlockedDomains
    requires StartsWith(h, "www.") && EndsWith(h, "." + d)
    ensures UnderDomain(h[4..], d)
  {
    var rest := h[4..];
    assert h[|h| - |d| - 1] == '.';
    assert forall i :: 0 <= i < 3 ==> h[i] == h[..4][i] == 'w';
    if |rest| >= |d| + 1 {
      assert rest[|rest| - |d| - 1..] == h[|h| - |d| - 1..];
    } else if |rest| == |d| {
      assert rest == h[|h| - |d|..];
    }
  }

  /** What a listed domain covers after `www.` is stripped, it covers before. */
  lemma NormalizedUnderDomain(host: string, d: string)
    requires UnderDomain(Normalize(host), d)
    ensures UnderDomain(Lower(host), d)
  {
    var h := Lower(host);
    if StartsWith(h, "www.") {
      var rest := h[4..];
      assert Normalize(host) == rest;
      if rest == d {
        assert h[3] == '.';
        assert h[|h| - |d| - 1..] == [h[3]] + rest;
      } else {
        assert EndsWith(rest, "." + d);
        assert h[|h| - |d| - 1..] == rest[|rest| - |d| - 1..];
      }
    }
  }

  /**
   * Stripping `www.` never changes the verdict for this list: a host is
   * blocked exactly when its lower-cased form is a listed domain or ends in
   * `"." + d` for a listed `d`.
   */
  lemma WwwRuleRedundant(host: string)
    ensures Blocked(Some(host)) <==> exists d :: d in BlockedDomains && UnderDomain(Lower(host), d)
  {
    var h := Lower(host);
    if exists d :: d in BlockedDomains && UnderDomain(h, d) {
      var d :| d in BlockedDomains && UnderDomain(h, d);
      if h == d {
        ListedDomainBlocked(d, host);
      } else {
        SubdomainBlocked(d, host);
      }
    }
    if Blocked(Some(host)) {
      var d :| d in BlockedDomains && UnderDomain(Normalize(host), d);
      NormalizedUnderDomain(host, d);
    }
  }

  lemma ExampleWwwDomain()
    ensures Blocked(Some("www.divar.ir"))
  {
    assert BlockedDomains[3] == "divar.ir";
    assert Lower("www.divar.ir") == "www." + "divar.ir";
    ListedDomainBlocked("divar.ir", "www.divar.ir");
  }

  lemma ExampleSubdomain()
    ensures Blocked(Some("Sub.Divar.IR"))
  {
    assert BlockedDomains[3] == "divar.ir";
    var h := Lower("Sub.Divar.IR");
    assert h == "sub.divar.ir";
    assert h[|h| - 9..] == "." + "divar.ir";
    SubdomainBlocked("divar.ir", "Sub.Divar.IR");
  }

  /** Ending in a listed domain without the dot is not enough. */
  lemma ExampleLookalike()
    ensures !Blocked(Some("notdivar.ir"))
  {
    var h := "notdivar.ir";
    assert Lower(h) == h;
    assert h[0] == 'n' && h[2] == 't';
    forall d | d in BlockedDomains ensures !UnderDomain(h, d) {
      assert h != d;
    }
    WwwRuleRedundant(h);
  }
}
