/**
 * The ingress side of the bookmark generator: how one ingress resource is
 * flattened into IngressInfo records, and how the records of all listed
 * ingresses are sorted (GetIngresses) or grouped by namespace with one
 * record per host (GetIngressesByNamespace).
 *
 * The cluster list call is not modelled: the already-listed ingresses are a
 * parameter. Of the Kubernetes networking types only the fields the
 * extraction reads are kept.
 */
module Kubernetes {
  import opened Wrappers
  import opened Text
  import opened Sorting

  // ---------------------------------------------------------------------
  // Data model
  // ---------------------------------------------------------------------

  /** One path of a rule's HTTP section (backend and path type are not read). */
  datatype HttpIngressPath = HttpIngressPath(path: string)

  /** A rule's HTTP section; a nil section is `None` in IngressRule.http. */
  datatype HttpIngressRuleValue = HttpIngressRuleValue(paths: seq<HttpIngressPath>)

  datatype IngressRule = IngressRule(host: string, http: Option<HttpIngressRuleValue>)

  datatype IngressTls = IngressTls(hosts: seq<string>)

  datatype Ingress = Ingress(name: string, namespace: string, rules: seq<IngressRule>, tls: seq<IngressTls>)

  /** One routable endpoint. */
  datatype IngressInfo = IngressInfo(name: string, namespace: string, host: string, path: string, url: string)

  function UrlOf(info: IngressInfo): string {
    info.url
  }

  function HostOf(info: IngressInfo): string {
    info.host
  }

  // ---------------------------------------------------------------------
  // Scheme inference
  // ---------------------------------------------------------------------

  /** Some TLS entry of the ingress lists this host. */
  predicate HasTlsHost(tls: seq<IngressTls>, host: string) {
    exists t :: 0 <= t < |tls| && host in tls[t].hosts
  }

  function Scheme(tls: seq<IngressTls>, host: string): string {
    if HasTlsHost(tls, host) then "https" else "http"
  }

  /** The nested TLS loops with their two `break`s. */
  method ResolveScheme(tls: seq<IngressTls>, host: string) returns (scheme: string)
    ensures scheme == Scheme(tls, host)
  {
    scheme := "http";
    if |tls| > 0 {
      var t := 0;
      while t < |tls|
        invariant 0 <= t <= |tls|
        invariant scheme == "http"
        invariant forall u :: 0 <= u < t ==> host !in tls[u].hosts
      {
        var k := 0;
        while k < |tls[t].hosts|
          invariant 0 <= k <= |tls[t].hosts|
          invariant scheme == "http"
          invariant host !in tls[t].hosts[..k]
        {
          if tls[t].hosts[k] == host {
            scheme := "https";
            break;
          }
          assert tls[t].hosts[..k + 1] == tls[t].hosts[..k] + [tls[t].hosts[k]];
          k := k + 1;
        }
        if scheme == "https" {
          assert host in tls[t].hosts;
          break;
        }
        assert tls[t].hosts[..k] == tls[t].hosts;
        t := t + 1;
      }
    }
  }

  /** A URL built from the scheme starts with "https://" exactly when a TLS entry lists the host. */
  lemma SchemePrefix(tls: seq<IngressTls>, host: string, tail: string)
    requires host != ""
    ensures StartsWith(Scheme(tls, host) + "://" + host + tail, "https://") <==> HasTlsHost(tls, host)
  {
    var url := Scheme(tls, host) + "://" + host + tail;
    if HasTlsHost(tls, host) {
      assert url[..8] == "https://";
    } else {
      assert url[..8][4] == ':' && "https://"[4] == 's';
    }
  }

  lemma SchemeIsHttpsIffTls(tls: seq<IngressTls>, host: string)
    ensures Scheme(tls, host) == "https" <==>
      exists t, k :: 0 <= t < |tls| && 0 <= k < |tls[t].hosts| && tls[t].hosts[k] == host
    ensures Scheme(tls, host) != "https" ==> Scheme(tls, host) == "http"
  {
    if HasTlsHost(tls, host) {
      var t :| 0 <= t < |tls| && host in tls[t].hosts;
      var k :| 0 <= k < |tls[t].hosts| && tls[t].hosts[k] == host;
    }
  }

  // ---------------------------------------------------------------------
  // Extraction of one ingress (reference definition)
  // ---------------------------------------------------------------------

  /** An empty path stands for "/". */
  function NormalizedPath(p: HttpIngressPath): string {
    if p.path == "" then "/" else p.path
  }

  /** The record for one path of a rule's HTTP section. */
  function PathRecord(ingress: Ingress, host: string, p: HttpIngressPath): IngressInfo {
    var path := NormalizedPath(p);
    IngressInfo(ingress.name, ingress.namespace, host, path, Scheme(ingress.tls, host) + "://" + host + path)
  }

  /** The record for a rule without an HTTP section: path "/", but no path in the URL. */
  function HostRecord(ingress: Ingress, host: string): IngressInfo {
    IngressInfo(ingress.name, ingress.namespace, host, "/", Scheme(ingress.tls, host) + "://" + host)
  }

  function PathRecords(ingress: Ingress, host: string, paths: seq<HttpIngressPath>): seq<IngressInfo> {
    if paths == [] then []
    else PathRecords(ingress, host, paths[..|paths| - 1]) + [PathRecord(ingress, host, paths[|paths| - 1])]
  }

  function RuleRecords(ingress: Ingress, rule: IngressRule): seq<IngressInfo> {
    if rule.host == "" then []
    else if rule.http.None? then [HostRecord(ingress, rule.host)]
    else PathRecords(ingress, rule.host, rule.http.value.paths)
  }

  function RulesRecords(ingress: Ingress, rules: seq<IngressRule>): seq<IngressInfo> {
    if rules == [] then []
    else RulesRecords(ingress, rules[..|rules| - 1]) + RuleRecords(ingress, rules[|rules| - 1])
  }

  /** What extractIngressInfo returns for an ingress. */
  function Extracted(ingress: Ingress): seq<IngressInfo> {
    RulesRecords(ingress, ingress.rules)
  }

  /** Extending the paths by one appends that path's record. */
  lemma PathRecordsSnoc(ingress: Ingress, host: string, paths: seq<HttpIngressPath>, k: nat)
    requires k < |paths|
    ensures PathRecords(ingress, host, paths[..k + 1]) ==
      PathRecords(ingress, host, paths[..k]) + [PathRecord(ingress, host, paths[k])]
  {
    assert paths[..k + 1][..k] == paths[..k];
  }

  /** Extending the rules by one appends that rule's records. */
  lemma RulesRecordsSnoc(ingress: Ingress, rules: seq<IngressRule>, r: nat)
    requires r < |rules|
    ensures RulesRecords(ingress, rules[..r + 1]) == RulesRecords(ingress, rules[..r]) + RuleRecords(ingress, rules[r])
  {
    assert rules[..r + 1][..r] == rules[..r];
  }

  /** The loop over one rule's HTTP paths, appending to the records so far. */
  method AppendPathRecords(ingress: Ingress, host: string, paths: seq<HttpIngressPath>, acc: seq<IngressInfo>)
    returns (result: seq<IngressInfo>)
    ensures result == acc + PathRecords(ingress, host, paths)
  {
    result := acc;
    var k := 0;
    while k < |paths|
      invariant 0 <= k <= |paths|
      invariant result == acc + PathRecords(ingress, host, paths[..k])
    {
      PathRecordsSnoc(ingress, host, paths, k);
      var pathStr := paths[k].path;
      if pathStr == "" {
        pathStr := "/";
      }
      var scheme := ResolveScheme(ingress.tls, host);
      var url := scheme + "://" + host + pathStr;
      var info := IngressInfo(ingress.name, ingress.namespace, host, pathStr, url);
      assert info == PathRecord(ingress, host, paths[k]);
      AppendAssoc(acc, PathRecords(ingress, host, paths[..k]), [info]);
      result := result + [info];
      k := k + 1;
    }
    assert paths[..k] == paths;
  }

  method ExtractIngressInfo(ingress: Ingress) returns (result: seq<IngressInfo>)
    ensures result == Extracted(ingress)
  {
    result := [];
    var r := 0;
    while r < |ingress.rules|
      invariant 0 <= r <= |ingress.rules|
      invariant result == RulesRecords(ingress, ingress.rules[..r])
    {
      var rule := ingress.rules[r];
      RulesRecordsSnoc(ingress, ingress.rules, r);
      var host := rule.host;
      if host == "" {
        r := r + 1;
        continue;
      }
      if rule.http.Some? {
        result := AppendPathRecords(ingress, host, rule.http.value.paths, result);
      } else {
        var scheme := ResolveScheme(ingress.tls, host);
        var url := scheme + "://" + host;
        result := result + [IngressInfo(ingress.name, ingress.namespace, host, "/", url)];
      }
      r := r + 1;
    }
    assert ingress.rules[..r] == ingress.rules;
  }

  // ---------------------------------------------------------------------
  // Properties of the extraction
  // ---------------------------------------------------------------------

  lemma {:induction false} PathRecordsAt(ingress: Ingress, host: string, paths: seq<HttpIngressPath>)
    ensures |PathRecords(ingress, host, paths)| == |paths|
    ensures forall k :: 0 <= k < |paths| ==> PathRecords(ingress, host, paths)[k] == PathRecord(ingress, host, paths[k])
    decreases |paths|
  {
    if paths != [] {
      PathRecordsAt(ingress, host, paths[..|paths| - 1]);
    }
  }

  /**
   * A rule with an empty host yields nothing; a rule without an HTTP section
   * yields one record with path "/" and no path in the URL; a rule with an
   * HTTP section yields one record per declared path, in declaration order
   * (none for an empty path list), an empty path becoming "/".
   */
  lemma RuleRecordsShape(ingress: Ingress, rule: IngressRule)
    ensures rule.host == "" ==> RuleRecords(ingress, rule) == []
    ensures rule.host != "" && rule.http.None? ==>
      var s := RuleRecords(ingress, rule);
      |s| == 1 && s[0].name == ingress.name && s[0].namespace == ingress.namespace &&
      s[0].host == rule.host && s[0].path == "/" &&
      s[0].url == Scheme(ingress.tls, rule.host) + "://" + rule.host
    ensures rule.host != "" && rule.http.Some? ==>
      var s := RuleRecords(ingress, rule);
      var paths := rule.http.value.paths;
      |s| == |paths| &&
      forall k :: 0 <= k < |paths| ==>
        s[k].name == ingress.name && s[k].namespace == ingress.namespace && s[k].host == rule.host &&
        s[k].path == (if paths[k].path == "" then "/" else paths[k].path) &&
        s[k].url == Scheme(ingress.tls, rule.host) + "://" + rule.host + s[k].path
  {
    if rule.host != "" && rule.http.Some? {
      PathRecordsAt(ingress, rule.host, rule.http.value.paths);
    }
  }

  /** Records come rule by rule, in rule order. */
  lemma {:induction false} RulesRecordsConcat(ingress: Ingress, a: seq<IngressRule>, b: seq<IngressRule>)
    ensures RulesRecords(ingress, a + b) == RulesRecords(ingress, a) + RulesRecords(ingress, b)
    decreases |b|
  {
    if b == [] {
      assert a + b == a;
    } else {
      var n := |b| - 1;
      var ab := a + b;
      assert ab[..|ab| - 1] == a + b[..n];
      assert ab[|ab| - 1] == b[n];
      assert RulesRecords(ingress, ab) == RulesRecords(ingress, a + b[..n]) + RuleRecords(ingress, b[n]);
      RulesRecordsConcat(ingress, a, b[..n]);
      AppendAssoc(RulesRecords(ingress, a), RulesRecords(ingress, b[..n]), RuleRecords(ingress, b[n]));
    }
  }

  /** How many records a rule contributes, counted independently of the construction. */
  function RuleCount(rule: IngressRule): nat {
    if rule.host == "" then 0 else if rule.http.None? then 1 else |rule.http.value.paths|
  }

  function RecordCount(rules: seq<IngressRule>): nat {
    if rules == [] then 0 else RuleCount(rules[0]) + RecordCount(rules[1..])
  }

  lemma {:induction false} ExtractedCount(ingress: Ingress, rules: seq<IngressRule>)
    ensures |RulesRecords(ingress, rules)| == RecordCount(rules)
    decreases |rules|
  {
    if rules != [] {
      assert rules == [rules[0]] + rules[1..];
      RulesRecordsConcat(ingress, [rules[0]], rules[1..]);
      ExtractedCount(ingress, rules[1..]);
      assert RulesRecords(ingress, [rules[0]]) == RuleRecords(ingress, rules[0]);
      RuleRecordsShape(ingress, rules[0]);
    }
  }

  /** What holds of each record of a rule. */
  ghost predicate RecordOfIngress(ingress: Ingress, r: IngressInfo) {
    && r.host != ""
    && r.name == ingress.name
    && r.namespace == ingress.namespace
    && (exists k :: 0 <= k < |ingress.rules| && ingress.rules[k].host == r.host)
    && (r.url == Scheme(ingress.tls, r.host) + "://" + r.host + r.path
        || r.url == Scheme(ingress.tls, r.host) + "://" + r.host)
    && (StartsWith(r.url, "https://") <==> HasTlsHost(ingress.tls, r.host))
  }

  lemma {:induction false} RulesRecordsFacts(ingress: Ingress, n: nat)
    requires n <= |ingress.rules|
    ensures forall r :: r in RulesRecords(ingress, ingress.rules[..n]) ==> RecordOfIngress(ingress, r)
    decreases n
  {
    if n > 0 {
      var rules := ingress.rules[..n];
      assert rules[..n - 1] == ingress.rules[..n - 1];
      RulesRecordsFacts(ingress, n - 1);
      var rule := ingress.rules[n - 1];
      assert rules[n - 1] == rule;
      RuleRecordsShape(ingress, rule);
      forall r | r in RuleRecords(ingress, rule) ensures RecordOfIngress(ingress, r) {
        var k :| 0 <= k < |RuleRecords(ingress, rule)| && RuleRecords(ingress, rule)[k] == r;
        var prefix := Scheme(ingress.tls, r.host) + "://";
        assert r.url == prefix + r.host + r.path || r.url == prefix + r.host + "";
        SchemePrefix(ingress.tls, r.host, r.path);
        SchemePrefix(ingress.tls, r.host, "");
      }
    }
  }

  /**
   * Every extracted record has a non-empty host that is the host of one of
   * the ingress's rules, the ingress's name and namespace, a URL made of the
   * scheme, "://", the host and possibly the path, and an "https://" URL
   * exactly when a TLS entry lists its host.
   */
  lemma ExtractedFacts(ingress: Ingress)
    ensures forall r :: r in Extracted(ingress) ==> RecordOfIngress(ingress, r)
  {
    RulesRecordsFacts(ingress, |ingress.rules|);
    assert ingress.rules[..|ingress.rules|] == ingress.rules;
  }

  // ---------------------------------------------------------------------
  // GetIngresses: all records, sorted by URL
  // ---------------------------------------------------------------------

  /** The records of all listed ingresses, ingress by ingress. */
  function ExtractedAll(items: seq<Ingress>): seq<IngressInfo> {
    if items == [] then [] else ExtractedAll(items[..|items| - 1]) + Extracted(items[|items| - 1])
  }

  /** Copies a sequence into a fresh array, sorts it in place and reads it back. */
  method SortedCopy(s: seq<IngressInfo>, key: IngressInfo -> string) returns (r: seq<IngressInfo>)
    ensures SortedBy(r, key)
    ensures multiset(r) == multiset(s)
  {
    var a := new IngressInfo[|s|](k requires 0 <= k < |s| => s[k]);
    assert a[..] == s;
    SortBy(a, key);
    r := a[..];
  }

  method GetIngresses(items: seq<Ingress>) returns (result: seq<IngressInfo>)
    ensures SortedBy(result, UrlOf)
    ensures multiset(result) == multiset(ExtractedAll(items))
    ensures |result| == |ExtractedAll(items)|
  {
    result := [];
    var i := 0;
    while i < |items|
      invariant 0 <= i <= |items|
      invariant result == ExtractedAll(items[..i])
    {
      assert items[..i + 1][..i] == items[..i];
      var infos := ExtractIngressInfo(items[i]);
      result := result + infos;
      i := i + 1;
    }
    assert items[..i] == items;
    result := SortedCopy(result, UrlOf);
    assert |multiset(result)| == |multiset(ExtractedAll(items))|;
  }

  // ---------------------------------------------------------------------
  // GetIngressesByNamespace: grouped, one record per host, sorted by host
  // ---------------------------------------------------------------------

  function Namespaces(items: seq<Ingress>): set<string> {
    set i | 0 <= i < |items| :: items[i].namespace
  }

  /** The records of the listed ingresses of one namespace, in listing order. */
  function NamespaceRecords(items: seq<Ingress>, ns: string): seq<IngressInfo> {
    if items == [] then []
    else
      var last := items[|items| - 1];
      NamespaceRecords(items[..|items| - 1], ns) + (if last.namespace == ns then Extracted(last) else [])
  }

  /** The first record with this host, if any. */
  function FirstWithHost(s: seq<IngressInfo>, host: string): Option<IngressInfo> {
    if s == [] then None else if s[0].host == host then Some(s[0]) else FirstWithHost(s[1..], host)
  }

  /** Position k holds the first record with this host. */
  ghost predicate IsFirstWithHost(s: seq<IngressInfo>, k: int, host: string) {
    0 <= k < |s| && s[k].host == host && forall j :: 0 <= j < k ==> s[j].host != host
  }

  /** No record is found exactly when no record has the host. */
  lemma {:induction false} FirstWithHostNone(s: seq<IngressInfo>, host: string)
    ensures FirstWithHost(s, host).None? <==> forall k :: 0 <= k < |s| ==> s[k].host != host
    decreases |s|
  {
    if s != [] && s[0].host != host {
      FirstWithHostNone(s[1..], host);
      if forall k :: 0 <= k < |s[1..]| ==> s[1..][k].host != host {
        forall k | 0 <= k < |s| ensures s[k].host != host {
          if k > 0 {
            assert s[1..][k - 1] == s[k];
          }
        }
      }
    }
  }

  /** The record at the first position with the host is the one found. */
  lemma {:induction false} FirstWithHostAt(s: seq<IngressInfo>, host: string, k: int)
    requires IsFirstWithHost(s, k, host)
    ensures FirstWithHost(s, host) == Some(s[k])
    decreases |s|
  {
    if s[0].host != host {
      assert IsFirstWithHost(s[1..], k - 1, host);
      FirstWithHostAt(s[1..], host, k - 1);
    }
  }

  /** A record found sits at the first position with the host. */
  lemma {:induction false} FirstWithHostFound(s: seq<IngressInfo>, host: string)
    requires FirstWithHost(s, host).Some?
    ensures exists k :: IsFirstWithHost(s, k, host) && s[k] == FirstWithHost(s, host).value
    decreases |s|
  {
    if s[0].host != host {
      FirstWithHostFound(s[1..], host);
      var k :| IsFirstWithHost(s[1..], k, host) && s[1..][k] == FirstWithHost(s, host).value;
      assert IsFirstWithHost(s, k + 1, host);
    } else {
      assert IsFirstWithHost(s, 0, host);
    }
  }

  /** FirstWithHost finds the record at the first position with the host, if any. */
  lemma FirstWithHostMeaning(s: seq<IngressInfo>, host: string)
    ensures FirstWithHost(s, host).None? <==> forall k :: 0 <= k < |s| ==> s[k].host != host
    ensures forall k :: IsFirstWithHost(s, k, host) ==> FirstWithHost(s, host) == Some(s[k])
    ensures FirstWithHost(s, host).Some? ==>
      exists k :: IsFirstWithHost(s, k, host) && s[k] == FirstWithHost(s, host).value
  {
    FirstWithHostNone(s, host);
    forall k | IsFirstWithHost(s, k, host) ensures FirstWithHost(s, host) == Some(s[k]) {
      FirstWithHostAt(s, host, k);
    }
    if FirstWithHost(s, host).Some? {
      FirstWithHostFound(s, host);
    }
  }

  lemma {:induction false} FirstWithHostAppend(a: seq<IngressInfo>, b: seq<IngressInfo>, host: string)
    ensures FirstWithHost(a + b, host) ==
      if FirstWithHost(a, host).Some? then FirstWithHost(a, host) else FirstWithHost(b, host)
    decreases |a|
  {
    if a == [] {
      assert a + b == b;
    } else {
      assert (a + b)[1..] == a[1..] + b;
      FirstWithHostAppend(a[1..], b, host);
    }
  }

  lemma FirstWithHostHasHost(s: seq<IngressInfo>, host: string)
    ensures FirstWithHost(s, host).Some? ==>
      FirstWithHost(s, host).value.host == host && FirstWithHost(s, host).value in s
  {
    FirstWithHostMeaning(s, host);
  }

  /** The per-host map after visiting `infos` in order: a host already present keeps its record. */
  function KeepFirst(m: map<string, IngressInfo>, infos: seq<IngressInfo>): map<string, IngressInfo> {
    if infos == [] then m
    else
      var m' := KeepFirst(m, infos[..|infos| - 1]);
      var info := infos[|infos| - 1];
      if info.host in m' then m' else m'[info.host := info]
  }

  /** The nested map `grouped` after visiting the listed ingresses in order. */
  function Grouped(items: seq<Ingress>): map<string, map<string, IngressInfo>> {
    if items == [] then map[]
    else
      var g := Grouped(items[..|items| - 1]);
      var ingress := items[|items| - 1];
      var hosts := if ingress.namespace in g then g[ingress.namespace] else map[];
      g[ingress.namespace := KeepFirst(hosts, Extracted(ingress))]
  }

  lemma {:induction false} KeepFirstMeaning(m: map<string, IngressInfo>, infos: seq<IngressInfo>, host: string)
    ensures host in KeepFirst(m, infos) <==> host in m || FirstWithHost(infos, host).Some?
    ensures host in KeepFirst(m, infos) ==>
      KeepFirst(m, infos)[host] == if host in m then m[host] else FirstWithHost(infos, host).value
    decreases |infos|
  {
    if infos != [] {
      var n := |infos| - 1;
      assert infos == infos[..n] + [infos[n]];
      KeepFirstMeaning(m, infos[..n], host);
      FirstWithHostAppend(infos[..n], [infos[n]], host);
    }
  }

  lemma {:induction false} NamespaceRecordsOutside(items: seq<Ingress>, ns: string)
    requires ns !in Namespaces(items)
    ensures NamespaceRecords(items, ns) == []
    decreases |items|
  {
    if items != [] {
      var init := items[..|items| - 1];
      assert Namespaces(init) <= Namespaces(items) by {
        forall x | x in Namespaces(init) ensures x in Namespaces(items) {
          var i :| 0 <= i < |init| && init[i].namespace == x;
          assert items[i].namespace == x;
        }
      }
      NamespaceRecordsOutside(init, ns);
      assert items[|items| - 1].namespace in Namespaces(items);
    }
  }

  lemma NamespacesLast(items: seq<Ingress>)
    requires items != []
    ensures Namespaces(items) == Namespaces(items[..|items| - 1]) + {items[|items| - 1].namespace}
  {
    var init := items[..|items| - 1];
    forall x | x in Namespaces(items) ensures x in Namespaces(init) + {items[|items| - 1].namespace} {
      var i :| 0 <= i < |items| && items[i].namespace == x;
      if i < |init| {
        assert init[i].namespace == x;
      }
    }
    forall x | x in Namespaces(init) ensures x in Namespaces(items) {
      var i :| 0 <= i < |init| && init[i].namespace == x;
      assert items[i].namespace == x;
    }
  }

  /** What `grouped` holds under one namespace and host. */
  ghost predicate GroupedEntry(g: map<string, map<string, IngressInfo>>, items: seq<Ingress>, ns: string, host: string)
    requires ns in g
  {
    && (host in g[ns] <==> FirstWithHost(NamespaceRecords(items, ns), host).Some?)
    && (host in g[ns] ==> g[ns][host] == FirstWithHost(NamespaceRecords(items, ns), host).value)
  }

  /** Visiting one more ingress: the entry of its own namespace. */
  lemma GroupedStepSame(init: seq<Ingress>, ingress: Ingress, host: string)
    requires ingress.namespace in Grouped(init) ==> GroupedEntry(Grouped(init), init, ingress.namespace, host)
    requires ingress.namespace !in Grouped(init) ==> NamespaceRecords(init, ingress.namespace) == []
    ensures ingress.namespace in Grouped(init + [ingress])
    ensures GroupedEntry(Grouped(init + [ingress]), init + [ingress], ingress.namespace, host)
  {
    var items := init + [ingress];
    assert items[..|items| - 1] == init && items[|items| - 1] == ingress;
    var ns := ingress.namespace;
    var g := Grouped(init);
    var hosts := if ns in g then g[ns] else map[];
    assert Grouped(items)[ns] == KeepFirst(hosts, Extracted(ingress));
    assert NamespaceRecords(items, ns) == NamespaceRecords(init, ns) + Extracted(ingress);
    KeepFirstMeaning(hosts, Extracted(ingress), host);
    FirstWithHostAppend(NamespaceRecords(init, ns), Extracted(ingress), host);
  }

  /** Visiting one more ingress: the entries of other namespaces do not change. */
  lemma GroupedStepOther(init: seq<Ingress>, ingress: Ingress, ns: string, host: string)
    requires ns != ingress.namespace && ns in Grouped(init) && GroupedEntry(Grouped(init), init, ns, host)
    ensures ns in Grouped(init + [ingress])
    ensures GroupedEntry(Grouped(init + [ingress]), init + [ingress], ns, host)
  {
    var items := init + [ingress];
    assert items[..|items| - 1] == init && items[|items| - 1] == ingress;
    assert Grouped(items)[ns] == Grouped(init)[ns];
    assert NamespaceRecords(items, ns) == NamespaceRecords(init, ns) + [];
    assert NamespaceRecords(items, ns) == NamespaceRecords(init, ns);
  }

  /**
   * `grouped` has one key per namespace of a listed ingress; under it, one key
   * per host of that namespace's records, holding the first record with that host.
   */
  lemma {:induction false} GroupedMeaning(items: seq<Ingress>)
    ensures Grouped(items).Keys == Namespaces(items)
    ensures forall ns, host :: ns in Grouped(items) ==> GroupedEntry(Grouped(items), items, ns, host)
    decreases |items|
  {
    if items != [] {
      var init := items[..|items| - 1];
      var ingress := items[|items| - 1];
      assert items == init + [ingress];
      GroupedMeaning(init);
      NamespacesLast(items);
      if ingress.namespace !in Grouped(init) {
        NamespaceRecordsOutside(init, ingress.namespace);
      }
      forall ns, host | ns in Grouped(items) ensures GroupedEntry(Grouped(items), items, ns, host) {
        if ns == ingress.namespace {
          GroupedStepSame(init, ingress, host);
        } else {
          GroupedStepOther(init, ingress, ns, host);
        }
      }
    }
  }

  /** Each key of an inner map is the host of the record stored under it. */
  lemma GroupedKeyedByHost(items: seq<Ingress>)
    ensures KeyedByHost(Grouped(items))
  {
    GroupedMeaning(items);
    forall ns, host | ns in Grouped(items) && host in Grouped(items)[ns]
      ensures Grouped(items)[ns][host].host == host
    {
      assert GroupedEntry(Grouped(items), items, ns, host);
      FirstWithHostHasHost(NamespaceRecords(items, ns), host);
    }
  }

  ghost predicate KeyedByHost(grouped: map<string, map<string, IngressInfo>>) {
    forall ns, host :: ns in grouped && host in grouped[ns] ==> grouped[ns][host].host == host
  }

  function HostSet(s: seq<IngressInfo>): set<string> {
    set r | r in s :: r.host
  }

  lemma HeadIsElement<T>(s: seq<T>)
    ensures |s| > 0 ==> s[0] in s
  {
  }

  /** Ascending by host with no host twice. */
  ghost predicate StrictlySortedByHost(s: seq<IngressInfo>) {
    forall i, j :: 0 <= i < j < |s| ==> Less(s[i].host, s[j].host)
  }

  /** `list` holds exactly the records of the per-host map `hosts`, strictly sorted by host. */
  ghost predicate ListsHosts(list: seq<IngressInfo>, hosts: map<string, IngressInfo>) {
    && StrictlySortedByHost(list)
    && HostSet(list) == hosts.Keys
    && forall r :: r in list ==> r.host in hosts && hosts[r.host] == r
  }

  /** Sorting the values of a per-host map by host gives a strictly sorted list. */
  lemma SortedValuesAreStrict(list: seq<IngressInfo>, sorted: seq<IngressInfo>, hosts: map<string, IngressInfo>)
    requires NoDuplicates(list)
    requires forall r :: r in list ==> r.host in hosts && hosts[r.host] == r
    requires HostSet(list) == hosts.Keys
    requires multiset(sorted) == multiset(list)
    requires SortedBy(sorted, HostOf)
    ensures ListsHosts(sorted, hosts)
  {
    NoDuplicatesPermutation(list, sorted);
    forall r ensures r in sorted <==> r in list {
      assert r in sorted <==> r in multiset(sorted);
      assert r in list <==> r in multiset(list);
    }
    assert HostSet(sorted) == HostSet(list);
    forall i, j | 0 <= i < j < |sorted| ensures Less(sorted[i].host, sorted[j].host) {
      assert sorted[i] in list && sorted[j] in list;
      assert sorted[i] != sorted[j];
      LessTotal(sorted[i].host, sorted[j].host);
      assert !Less(HostOf(sorted[j]), HostOf(sorted[i]));
    }
  }

  /** Reads the values of a per-host map in an arbitrary order, as Go's map iteration does. */
  method MapValues(hosts: map<string, IngressInfo>) returns (list: seq<IngressInfo>)
    requires forall host :: host in hosts ==> hosts[host].host == host
    ensures NoDuplicates(list)
    ensures forall r :: r in list ==> r.host in hosts && hosts[r.host] == r
    ensures HostSet(list) == hosts.Keys
  {
    list := [];
    var rest := hosts.Keys;
    while rest != {}
      invariant rest <= hosts.Keys
      invariant NoDuplicates(list)
      invariant forall r :: r in list ==> r.host in hosts && hosts[r.host] == r && r.host !in rest
      invariant HostSet(list) == hosts.Keys - rest
      decreases rest
    {
      var host :| host in rest;
      assert HostSet(list + [hosts[host]]) == HostSet(list) + {host};
      list := list + [hosts[host]];
      rest := rest - {host};
    }
  }

  /** Visiting one more record. */
  lemma KeepFirstSnoc(m: map<string, IngressInfo>, infos: seq<IngressInfo>, k: nat)
    requires k < |infos|
    ensures var m' := KeepFirst(m, infos[..k]);
      KeepFirst(m, infos[..k + 1]) == if infos[k].host in m' then m' else m'[infos[k].host := infos[k]]
  {
    assert infos[..k + 1][..k] == infos[..k];
  }

  /** Visiting one more ingress. */
  lemma GroupedSnoc(items: seq<Ingress>, i: nat)
    requires i < |items|
    ensures var g := Grouped(items[..i]);
      var ns := items[i].namespace;
      Grouped(items[..i + 1]) == g[ns := KeepFirst(if ns in g then g[ns] else map[], Extracted(items[i]))]
  {
    assert items[..i + 1][..i] == items[..i];
  }

  /** The de-duplicating loop: a host already in the map keeps its record. */
  method KeepFirstHosts(start: map<string, IngressInfo>, infos: seq<IngressInfo>) returns (hosts: map<string, IngressInfo>)
    ensures hosts == KeepFirst(start, infos)
  {
    hosts := start;
    var k := 0;
    while k < |infos|
      invariant 0 <= k <= |infos|
      invariant hosts == KeepFirst(start, infos[..k])
    {
      KeepFirstSnoc(start, infos, k);
      var info := infos[k];
      if info.host !in hosts {
        hosts := hosts[info.host := info];
      }
      k := k + 1;
    }
    assert infos[..k] == infos;
  }

  /** The first loop of GetIngressesByNamespace: fills the nested map. */
  method GroupByNamespace(items: seq<Ingress>) returns (grouped: map<string, map<string, IngressInfo>>)
    ensures grouped == Grouped(items)
  {
    grouped := map[];
    var i := 0;
    while i < |items|
      invariant 0 <= i <= |items|
      invariant grouped == Grouped(items[..i])
    {
      GroupedSnoc(items, i);
      var ingress := items[i];
      var infos := ExtractIngressInfo(ingress);
      if ingress.namespace !in grouped {
        grouped := grouped[ingress.namespace := map[]];
      }
      // Go's inner map is a reference: updating `hosts` updates grouped[ingress.Namespace].
      var hosts := KeepFirstHosts(grouped[ingress.namespace], infos);
      grouped := grouped[ingress.namespace := hosts];
      i := i + 1;
    }
    assert items[..i] == items;
  }

  /** The second loop of GetIngressesByNamespace: each namespace's records, sorted by host. */
  method SortGroups(grouped: map<string, map<string, IngressInfo>>) returns (result: map<string, seq<IngressInfo>>)
    requires KeyedByHost(grouped)
    ensures result.Keys == grouped.Keys
    ensures forall ns :: ns in result ==> ListsHosts(result[ns], grouped[ns])
  {
    result := map[];
    var pending := grouped.Keys;
    while pending != {}
      invariant pending <= grouped.Keys
      invariant result.Keys == grouped.Keys - pending
      invariant forall ns :: ns in result ==> ListsHosts(result[ns], grouped[ns])
      decreases pending
    {
      var ns :| ns in pending;
      var list := MapValues(grouped[ns]);
      var sorted := SortedCopy(list, HostOf);
      SortedValuesAreStrict(list, sorted, grouped[ns]);
      result := result[ns := sorted];
      pending := pending - {ns};
    }
  }

  /** A host occurs in a namespace's records exactly when it is a key of that namespace's map. */
  lemma GroupedHosts(items: seq<Ingress>, ns: string)
    requires ns in Grouped(items)
    ensures HostSet(NamespaceRecords(items, ns)) == Grouped(items)[ns].Keys
  {
    GroupedMeaning(items);
    var nr := NamespaceRecords(items, ns);
    forall host ensures host in HostSet(nr) <==> host in Grouped(items)[ns] {
      assert GroupedEntry(Grouped(items), items, ns, host);
      FirstWithHostMeaning(nr, host);
      if host in HostSet(nr) {
        var r :| r in nr && r.host == host;
        var k :| 0 <= k < |nr| && nr[k] == r;
        assert nr[k].host == host;
      }
    }
  }

  method GetIngressesByNamespace(items: seq<Ingress>) returns (result: map<string, seq<IngressInfo>>)
    ensures result.Keys == Namespaces(items)
    ensures forall ns :: ns in result ==> StrictlySortedByHost(result[ns])
    ensures forall ns :: ns in result ==> HostSet(result[ns]) == HostSet(NamespaceRecords(items, ns))
    ensures forall ns, k :: ns in result && 0 <= k < |result[ns]| ==>
      FirstWithHost(NamespaceRecords(items, ns), result[ns][k].host) == Some(result[ns][k])
    ensures forall ns :: ns in result && NamespaceRecords(items, ns) == [] ==> result[ns] == []
  {
    var grouped := GroupByNamespace(items);
    GroupedMeaning(items);
    GroupedKeyedByHost(items);
    result := SortGroups(grouped);
    forall ns | ns in result
      ensures HostSet(result[ns]) == HostSet(NamespaceRecords(items, ns))
    {
      GroupedHosts(items, ns);
    }
    forall ns, k | ns in result && 0 <= k < |result[ns]|
      ensures FirstWithHost(NamespaceRecords(items, ns), result[ns][k].host) == Some(result[ns][k])
    {
      assert result[ns][k] in result[ns];
      assert GroupedEntry(grouped, items, ns, result[ns][k].host);
    }
    forall ns | ns in result && NamespaceRecords(items, ns) == [] ensures result[ns] == [] {
      HeadIsElement(result[ns]);
    }
  }

  // ---------------------------------------------------------------------
  // The grouped result does not depend on Go's map iteration order
  // ---------------------------------------------------------------------

  /** Two strictly host-sorted lists with the same records are equal. */
  lemma {:induction false} StrictlySortedUnique(a: seq<IngressInfo>, b: seq<IngressInfo>)
    requires StrictlySortedByHost(a) && StrictlySortedByHost(b)
    requires forall r :: r in a <==> r in b
    ensures a == b
    decreases |a|
  {
    if a == [] || b == [] {
      HeadIsElement(a);
      HeadIsElement(b);
    } else {
      assert a[0] in b && b[0] in a;
      if a[0] != b[0] {
        var i :| 0 <= i < |b| && b[i] == a[0];
        var j :| 0 <= j < |a| && a[j] == b[0];
        assert Less(b[0].host, a[0].host);
        LessAsymmetric(b[0].host, a[0].host);
        assert false;
      }
      forall r ensures r in a[1..] <==> r in b[1..] {
        if r in a[1..] {
          var i :| 1 <= i < |a| && a[i] == r;
          assert Less(a[0].host, r.host);
          LessIrreflexive(r.host);
          assert r in a;
          var j :| 0 <= j < |b| && b[j] == r;
          assert j != 0 && b[1..][j - 1] == r;
        }
        if r in b[1..] {
          var i :| 1 <= i < |b| && b[i] == r;
          assert Less(b[0].host, r.host);
          LessIrreflexive(r.host);
          assert r in b;
          var j :| 0 <= j < |a| && a[j] == r;
          assert j != 0 && a[1..][j - 1] == r;
        }
      }
      StrictlySortedUnique(a[1..], b[1..]);
      assert a == [a[0]] + a[1..] && b == [b[0]] + b[1..];
    }
  }

  /** What GetIngressesByNamespace promises about one namespace's list. */
  ghost predicate NamespaceListOk(items: seq<Ingress>, ns: string, list: seq<IngressInfo>) {
    && StrictlySortedByHost(list)
    && HostSet(list) == HostSet(NamespaceRecords(items, ns))
    && forall k :: 0 <= k < |list| ==> FirstWithHost(NamespaceRecords(items, ns), list[k].host) == Some(list[k])
  }

  /**
   * The promise pins each namespace's list down completely: whatever order
   * Go's map iteration takes, GetIngressesByNamespace returns the same lists.
   */
  lemma NamespaceListDeterministic(items: seq<Ingress>, ns: string, a: seq<IngressInfo>, b: seq<IngressInfo>)
    requires NamespaceListOk(items, ns, a) && NamespaceListOk(items, ns, b)
    ensures a == b
  {
    var nr := NamespaceRecords(items, ns);
    forall r ensures r in a ==> r in b {
      if r in a {
        var i :| 0 <= i < |a| && a[i] == r;
        assert r.host in HostSet(b);
        var r' :| r' in b && r'.host == r.host;
        var j :| 0 <= j < |b| && b[j] == r';
      }
    }
    forall r ensures r in b ==> r in a {
      if r in b {
        var j :| 0 <= j < |b| && b[j] == r;
        assert r.host in HostSet(a);
        var r' :| r' in a && r'.host == r.host;
        var i :| 0 <= i < |a| && a[i] == r';
      }
    }
    StrictlySortedUnique(a, b);
  }
}
