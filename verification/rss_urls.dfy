/**
 * The last step of the scraper's `main`: literal substitutions on the
 * serialised feed that make links to the site secure when the site was
 * crawled over https, and that replace the `www.` form of the site's address by
 * the host actually crawled.
 */
module RssUrls {
  import opened Text

  /** The base URL's host split into subdomain, registered domain and public suffix, and the full host name. */
  datatype HostParts = HostParts(subdomain: string, domain: string, suffix: string, fqdn: string)

  /** The host with its `www.` toggled: removed when the hostname has it, added when it has not. */
  function Toggled(hostname: string): (g: string)
    ensures StartsWith(hostname, "www.") ==> "www." + g == hostname
    ensures !StartsWith(hostname, "www.") ==> g == "www." + hostname
  {
    if StartsWith(hostname, "www.") then hostname[4..] else "www." + hostname
  }

  /**
   * For an https base URL: every `http://` + hostname becomes `https://` +
   * hostname, and then every `http://` + the toggled host becomes `https://` +
   * the toggled host. For any other base URL the feed is left alone.
   */
  function Secure(rss: string, baseUrl: string, hostname: string): (r: string)
    ensures !StartsWith(baseUrl, "https") ==> r == rss
  {
    if !StartsWith(baseUrl, "https") then rss
    else
      var r := ReplaceAll(rss, "http://" + hostname, "https://" + hostname);
      ReplaceAll(r, "http://" + Toggled(hostname), "https://" + Toggled(hostname))
  }

  /** The `www` form of the site's address, as the last substitution looks for it. */
  function WwwForm(parts: HostParts): string
  {
    "//www." + parts.domain + "." + parts.suffix
  }

  /** Unless the crawled host is the `www` one, every `//www.<domain>.<suffix>` becomes `//<fqdn>`. */
  function Unwww(rss: string, parts: HostParts): (r: string)
    ensures parts.subdomain == "www" ==> r == rss
  {
    if parts.subdomain != "www" then ReplaceAll(rss, WwwForm(parts), "//" + parts.fqdn)
    else rss
  }

  /** The substitutions in the order `main` writes them: the https pass, then the `www` pass. */
  function PostProcess(rss: string, baseUrl: string, hostname: string, parts: HostParts): (r: string)
    ensures !StartsWith(baseUrl, "https") && parts.subdomain == "www" ==> r == rss
  {
    Unwww(Secure(rss, baseUrl, hostname), parts)
  }

  /**
   * The substitutions with the `www` pass first, so that a link it redirects
   * to the crawled host is secured by the https pass after it.
   */
  function PostProcessSecureLast(rss: string, baseUrl: string, hostname: string, parts: HostParts): (r: string)
    ensures !StartsWith(baseUrl, "https") && parts.subdomain == "www" ==> r == rss
  {
    Secure(Unwww(rss, parts), baseUrl, hostname)
  }

  /**
   * A host for which the https pass is guaranteed to leave no plain-http
   * link: no `:` and no `/` in it, and it does not end in `h`, `ht`, `htt`,
   * `http` or `https`. This excludes every host ending in `h`, such as any
   * `.ch` domain. `str.replace` skips an occurrence that overlaps the one it
   * has just replaced, so for the host `a.ch` the text `http://a.chttp://a.ch`
   * becomes `https://a.chttp://a.ch`, and `http://a.ch` survives.
   */
  predicate PlainHost(h: string)
  {
    && ':' !in h && '/' !in h
    && forall k :: 0 <= k < |h| ==> !StartsWith("https", h[k..])
  }

  /** The feed holds a plain-http link to the crawled host or to its toggled form. */
  predicate HasInsecureLink(rss: string, hostname: string)
  {
    Occurs(rss, "http://" + hostname) || Occurs(rss, "http://" + Toggled(hostname))
  }

  lemma DifferAt(a: string, b: string, k: nat)
    requires k < |a| && k < |b| && a[k] != b[k]
    ensures !Overlaps(a, b)
  {
  }

  /** A common prefix does not change whether two strings overlap. */
  lemma CommonPrefixOverlaps(x: string, a: string, b: string)
    ensures Overlaps(x + a, x + b) == Overlaps(a, b)
  {
    if |b| <= |a| {
      assert (x + a)[..|x + b|] == x + a[..|b|];
      assert (x + a[..|b|])[|x|..] == a[..|b|] && (x + b)[|x|..] == b;
    }
    if |a| <= |b| {
      assert (x + b)[..|x + a|] == x + b[..|a|];
      assert (x + b[..|a|])[|x|..] == b[..|a|] && (x + a)[|x|..] == a;
    }
  }

  /** A nonempty tail of a plain host overlaps `pre` + anything only if it is too short to reach `pre`'s `:`. */
  lemma PlainTailApart(h: string, k: nat, pre: string, rest: string)
    requires PlainHost(h) && k < |h|
    requires pre == "http://" || pre == "https://"
    ensures !Overlaps(h[k..], pre + rest)
  {
    var u, w := h[k..], pre + rest;
    var colon := |pre| - 3;
    assert w[colon] == ':';
    if |u| <= colon {
      assert w[..|u|] == "https"[..|u|];
      assert !StartsWith("https", h[k..]);
    } else {
      assert u[colon] == h[k + colon];
      DifferAt(u, w, colon);
    }
  }

  /** A secured link to one plain host never helps to form a plain-http link to another. */
  lemma LinksApart(h: string, g: string)
    requires PlainHost(h) && PlainHost(g)
    ensures Apart("https://" + g, "http://" + h)
  {
    var r, q := "https://" + g, "http://" + h;
    forall i | 0 <= i < |r|
      ensures !Overlaps(r[i..], q)
    {
      if i == 0 {
        DifferAt(r, q, 4);
      } else if i < 8 {
        DifferAt(r[i..], q, 0);
      } else {
        assert r[i..] == g[i - 8..];
        PlainTailApart(g, i - 8, "http://", h);
      }
    }
    forall j | 0 <= j < |q|
      ensures !Overlaps(r, q[j..])
    {
      if j == 0 {
        DifferAt(r, q, 4);
      } else if j < 7 {
        DifferAt(r, q[j..], 0);
      } else {
        assert q[j..] == h[j - 7..];
        PlainTailApart(h, j - 7, "https://", g);
      }
    }
  }

  lemma PlainToggled(h: string)
    requires PlainHost(h)
    ensures PlainHost(Toggled(h))
  {
    var g := Toggled(h);
    if StartsWith(h, "www.") {
      forall k | 0 <= k < |g|
        ensures !StartsWith("https", g[k..])
      {
        assert g[k..] == h[k + 4..];
      }
    } else {
      forall k | 0 <= k < |g|
        ensures !StartsWith("https", g[k..])
      {
        if k >= 4 {
          assert g[k..] == h[k - 4..];
        } else {
          assert g[k..][0] != 'h';
        }
      }
    }
  }

  /**
   * After the https pass for a plain host, the feed holds no plain-http link
   * to the host or to its toggled form.
   */
  lemma SecureEffect(rss: string, baseUrl: string, hostname: string)
    requires StartsWith(baseUrl, "https") && PlainHost(hostname)
    ensures !HasInsecureLink(Secure(rss, baseUrl, hostname), hostname)
  {
    var g := Toggled(hostname);
    PlainToggled(hostname);
    var p1, r1 := "http://" + hostname, "https://" + hostname;
    var p2, r2 := "http://" + g, "https://" + g;
    var s1 := ReplaceAll(rss, p1, r1);
    LinksApart(hostname, hostname);
    ReplaceLeavesNone(rss, p1, r1, p1);
    LinksApart(g, g);
    ReplaceLeavesNone(s1, p2, r2, p2);
    LinksApart(hostname, g);
    ReplaceLeavesNone(s1, p2, r2, p1);
  }

  /**
   * The `www` pass leaves no `www` form of the site behind, when the crawled
   * host's address and the `www` form cannot overlap.
   */
  lemma UnwwwEffect(rss: string, parts: HostParts)
    requires parts.subdomain != "www" && parts.fqdn != ""
    requires '/' !in parts.fqdn && '/' !in parts.domain && '/' !in parts.suffix
    requires !Overlaps(parts.fqdn, "www." + parts.domain + "." + parts.suffix)
    ensures !Occurs(Unwww(rss, parts), WwwForm(parts))
  {
    var q, r := WwwForm(parts), "//" + parts.fqdn;
    var tail := "www." + parts.domain + "." + parts.suffix;
    assert q == "//" + tail;
    assert '/' !in tail;
    forall i | 0 <= i < |r|
      ensures !Overlaps(r[i..], q)
    {
      if i == 0 {
        CommonPrefixOverlaps("//", parts.fqdn, tail);
      } else if i == 1 {
        DifferAt(r[i..], q, 1);
      } else {
        assert r[i..][0] == parts.fqdn[i - 2];
        DifferAt(r[i..], q, 0);
      }
    }
    forall j | 0 <= j < |q|
      ensures !Overlaps(r, q[j..])
    {
      if j == 0 {
        assert !Overlaps(r[0..], q);
      } else if j == 1 {
        assert q[j..][1] == tail[0];
        DifferAt(r, q[j..], 1);
      } else {
        assert q[j..][0] == tail[j - 2];
        DifferAt(r, q[j..], 0);
      }
    }
    ReplaceLeavesNone(rss, q, r, q);
  }

  /**
   * The two passes in `main`'s order can leave a plain-http link to the crawled
   * host in a feed crawled over https: for the host `b.e.c` the `www` pass
   * turns `http://www.e.c` into `http://b.e.c` after the https pass has run.
   */
  lemma InsecureAfterUnwww(rss: string, baseUrl: string, hostname: string, parts: HostParts)
    requires rss == "http://www.e.c" && baseUrl == "https://b.e.c" && hostname == "b.e.c"
    requires parts == HostParts("b", "e", "c", "b.e.c")
    ensures StartsWith(baseUrl, "https") && PlainHost(hostname)
    ensures PostProcess(rss, baseUrl, hostname, parts) == "http://" + hostname
    ensures HasInsecureLink(PostProcess(rss, baseUrl, hostname, parts), hostname)
  {
    ExampleHostPlain(hostname);
    ExampleSecure(rss, baseUrl, hostname);
    ExampleUnwww(rss, parts);
    InsecureOfPieces(rss, baseUrl, hostname, parts);
  }

  /** When the https pass finds nothing and the `www` pass yields `http://` + host, an insecure link is left. */
  lemma InsecureOfPieces(rss: string, baseUrl: string, hostname: string, parts: HostParts)
    requires Secure(rss, baseUrl, hostname) == rss
    requires Unwww(rss, parts) == "http://" + parts.fqdn && parts.fqdn == hostname
    ensures PostProcess(rss, baseUrl, hostname, parts) == "http://" + hostname
    ensures HasInsecureLink(PostProcess(rss, baseUrl, hostname, parts), hostname)
  {
    var r := "http://" + hostname;
    assert StartsWith(r[0..], r);
  }

  lemma ExampleHostPlain(h: string)
    requires h == "b.e.c"
    ensures PlainHost(h)
  {
    forall k | 0 <= k < |h|
      ensures !StartsWith("https", h[k..])
    {
      assert h[k..][0] != 'h';
    }
  }

  /** The https pass finds nothing to secure in `http://www.e.c` for host `b.e.c`. */
  lemma ExampleSecure(rss: string, baseUrl: string, hostname: string)
    requires rss == "http://www.e.c" && baseUrl == "https://b.e.c" && hostname == "b.e.c"
    ensures StartsWith(baseUrl, "https") && Secure(rss, baseUrl, hostname) == rss
  {
    var p := "http://" + hostname;
    assert rss[7] != p[7];
    assert forall i :: 1 <= i < |rss| ==> rss[i] != p[0];
    NoMatchAfterHead(rss, p, "https://" + hostname);
    var g := Toggled(hostname);
    assert |"http://" + g| > |rss|;
    ReplaceWithoutOccurrence(rss, "http://" + g, "https://" + g);
    assert StartsWith(baseUrl, "https");
  }

  /** A text that does not start with the pattern and has its first character nowhere later is left alone. */
  lemma NoMatchAfterHead(s: string, p: string, r: string)
    requires p != "" && s != [] && !StartsWith(s, p)
    requires forall i :: 1 <= i < |s| ==> s[i] != p[0]
    ensures ReplaceAll(s, p, r) == s
  {
    var tail := s[1..];
    assert forall i :: 0 <= i < |tail| ==> tail[i] != p[0];
    ReplaceAfterHead(tail, [], p, r);
    assert tail + [] == tail && [s[0]] + tail == s;
  }


  /** The `www` pass for host `b.e.c` of domain `e.c` turns `http://www.e.c` into `http://b.e.c`. */
  lemma ExampleUnwww(rss: string, parts: HostParts)
    requires rss == "http://www.e.c" && parts == HostParts("b", "e", "c", "b.e.c")
    ensures Unwww(rss, parts) == "http://" + parts.fqdn
  {
    var h := rss[..5];
    assert rss == h + WwwForm(parts);
    assert forall i :: 0 <= i < |h| ==> h[i] != '/';
    UnwwwBehindScheme(h, parts);
    assert h + "//" == "http://";
  }

  /** A `www` form after a head without `/` is redirected, and the head is kept. */
  lemma UnwwwBehindScheme(h: string, parts: HostParts)
    requires parts.subdomain != "www"
    requires forall i :: 0 <= i < |h| ==> h[i] != '/'
    ensures Unwww(h + WwwForm(parts), parts) == h + "//" + parts.fqdn
  {
    var w, r := WwwForm(parts), "//" + parts.fqdn;
    assert w[0] == '/';
    assert forall i :: 0 <= i < |h| ==> h[i] != w[0];
    ReplaceWhole(w, r);
    ReplaceAfterHead(h, w, w, r);
    assert h + r == h + "//" + parts.fqdn;
  }

  /**
   * With the `www` pass first, a feed crawled over https for a plain host holds
   * no plain-http link to the host or to its toggled form.
   */
  lemma SecureLastPromise(rss: string, baseUrl: string, hostname: string, parts: HostParts)
    requires StartsWith(baseUrl, "https") && PlainHost(hostname)
    ensures !HasInsecureLink(PostProcessSecureLast(rss, baseUrl, hostname, parts), hostname)
  {
    SecureEffect(Unwww(rss, parts), baseUrl, hostname);
  }

  /**
   * The substitutions at the end of `main`, reassigning the feed text step by
   * step, with the `www` pass moved before the https pass.
   */
  method RewriteLinks(text: string, baseUrl: string, hostname: string, parts: HostParts) returns (rss: string)
    ensures rss == PostProcessSecureLast(text, baseUrl, hostname, parts)
    ensures StartsWith(baseUrl, "https") && PlainHost(hostname) ==> !HasInsecureLink(rss, hostname)
  {
    rss := text;
    assert "//www." + parts.domain + "." + parts.suffix == WwwForm(parts);
    if parts.subdomain != "www" {
      rss := ReplaceAll(rss, "//www." + parts.domain + "." + parts.suffix, "//" + parts.fqdn);
    }
    if StartsWith(baseUrl, "https") {
      rss := ReplaceAll(rss, "http://" + hostname, "https://" + hostname);
      if StartsWith(hostname, "www.") {
        rss := ReplaceAll(rss, "http://" + hostname[4..], "https://" + hostname[4..]);
      } else {
        assert "http://www." + hostname == "http://" + Toggled(hostname);
        assert "https://www." + hostname == "https://" + Toggled(hostname);
        rss := ReplaceAll(rss, "http://www." + hostname, "https://www." + hostname);
      }
      if PlainHost(hostname) {
        SecureLastPromise(text, baseUrl, hostname, parts);
      }
    }
  }

  /** A pattern that starts with a prefix the text never contains leaves the text alone. */
  lemma ReplaceAbsent(s: string, q: string, p: string, r: string)
    requires q != "" && !Occurs(s, q) && StartsWith(p, q)
    ensures ReplaceAll(s, p, r) == s
  {
    AbsentPrefixAbsent(s, q, p);
    ReplaceWithoutOccurrence(s, p, r);
  }

  lemma StartsWithConcat(q: string, x: string)
    ensures StartsWith(q + x, q)
  {
    assert (q + x)[..|q|] == q;
  }

  /** A feed with no `http://` and no `//www.` in it comes out exactly as it went in. */
  lemma PostProcessUntouched(rss: string, baseUrl: string, hostname: string, parts: HostParts)
    requires !Occurs(rss, "http://") && !Occurs(rss, "//www.")
    ensures PostProcess(rss, baseUrl, hostname, parts) == rss
  {
    if StartsWith(baseUrl, "https") {
      StartsWithConcat("http://", hostname);
      ReplaceAbsent(rss, "http://", "http://" + hostname, "https://" + hostname);
      StartsWithConcat("http://", Toggled(hostname));
      ReplaceAbsent(rss, "http://", "http://" + Toggled(hostname), "https://" + Toggled(hostname));
    }
    if parts.subdomain != "www" {
      var pattern := WwwForm(parts);
      StartsWithConcat("//www.", parts.domain + "." + parts.suffix);
      assert "//www." + (parts.domain + "." + parts.suffix) == pattern;
      ReplaceAbsent(rss, "//www.", pattern, "//" + parts.fqdn);
    }
  }

  /**
   * Each substitution changes the text at the occurrences of its pattern and
   * nowhere else: the text cut at those occurrences and glued back with the
   * replacement is the result, and glued back with the pattern is the text.
   */
  lemma SubstitutionPieces(s: string, p: string, r: string)
    requires p != ""
    ensures ReplaceAll(s, p, r) == JoinWith(SplitOn(s, p), r)
    ensures JoinWith(SplitOn(s, p), p) == s
    ensures forall k :: 0 <= k < |SplitOn(s, p)| ==> !Occurs(SplitOn(s, p)[k], p)
  {
    SplitJoinRoundTrip(s, p);
    SplitPiecesFree(s, p);
  }
}
