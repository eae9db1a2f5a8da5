/**
 * The pure helpers of the vault's dashboard page (`client/src/pages/Dashboard.jsx`):
 * the domain a credential is filed under, the three-key ordering of the list, the
 * grouping of the ordered list by domain, the submit decision, the list and map
 * updates behind the pin, group and visibility toggles, and the target URL of an
 * autofill request. The URL parser and `localeCompare` are replaced by a simplified
 * host extractor and code-point order.
 */
module Dashboard {
  import opened Wrappers
  import Text
  import Sorting
  import Records

  type Entry = Records.Entry

  const Unknown := "unknown"
  const ApiBaseUrl := "https://password-manager-app-t77e.onrender.com"

  /**
   * The property names every plain object inherits from `Object.prototype`. Reading one of
   * them from `{}` yields a function (or the prototype itself), which is truthy.
   */
  const InheritedNames: set<string> := {
    "constructor", "__proto__", "__defineGetter__", "__defineSetter__", "__lookupGetter__",
    "__lookupSetter__", "hasOwnProperty", "isPrototypeOf", "propertyIsEnumerable",
    "toLocaleString", "toString", "valueOf"
  }

  /* ------------------------------ getDomain ------------------------------ */

  predicate HasScheme(u: string) {
    Text.StartsWith(u, "http://") || Text.StartsWith(u, "https://")
  }

  /** `u` without a leading `http://` or `https://`. */
  function StripScheme(u: string): (r: string)
    ensures HasScheme(u) ==> |r| < |u| && u == u[..|u| - |r|] + r
    ensures !HasScheme(u) ==> r == u
  {
    if Text.StartsWith(u, "http://") then u[7..]
    else if Text.StartsWith(u, "https://") then u[8..]
    else u
  }

  /** `replace(/^www\./, "")`. */
  function StripWww(h: string): (r: string)
    ensures Text.StartsWith(h, "www.") ==> h == "www." + r
    ensures !Text.StartsWith(h, "www.") ==> r == h
    ensures forall i :: 0 <= i < |r| ==> r[i] in h
  {
    if Text.StartsWith(h, "www.") then
      assert forall i :: 0 <= i < |h| - 4 ==> h[4..][i] == h[i + 4];
      h[4..]
    else h
  }

  /** The characters that end the authority of a special URL. */
  const AuthorityEnd: set<char> := {'/', '?', '#', '\\'}

  /** Code points the host parser refuses in a domain. */
  predicate ForbiddenHostChar(c: char) {
    c as int < 0x20 || c as int == 0x7F || c == ' ' || c == '#' || c == '%' || c == '/' || c == ':' ||
    c == '<' || c == '>' || c == '?' || c == '@' || c == '[' || c == '\\' || c == ']' || c == '^' || c == '|'
  }

  predicate CleanHost(host: string) {
    forall i :: 0 <= i < |host| ==> !ForbiddenHostChar(host[i])
  }

  predicate AllDigits(s: string) {
    forall i :: 0 <= i < |s| ==> '0' <= s[i] <= '9'
  }

  /**
   * The host and the `:port` suffix of an `http:` or `https:` URL: the authority runs to
   * the first `/`, `?`, `#` or `\\`, user information ends at its last `@`, and the port
   * starts at the first `:` after it.
   */
  function HostAndPort(full: string): (hp: (string, string))
    ensures |hp.1| > 0 ==> hp.1[0] == ':'
  {
    var authority := Text.Before(StripScheme(full), AuthorityEnd);
    var hostPort := Text.AfterLast(authority, '@');
    var host := Text.Before(hostPort, {':'});
    (host, hostPort[|host|..])
  }

  /** Lower-casing keeps a host free of forbidden code points, `/` among them. */
  function LowerHost(host: string): (r: string)
    requires CleanHost(host)
    ensures |r| == |host| && CleanHost(r) && '/' !in r
  {
    var r := Text.ToLower(host);
    assert forall i :: 0 <= i < |r| ==> r[i] == Text.LowerChar(host[i]) && !ForbiddenHostChar(r[i]);
    r
  }

  /**
   * `new URL(full).hostname`, or `None` where the constructor throws: the host must be
   * non-empty and free of forbidden code points and a port must be decimal digits.
   */
  function Hostname(full: string): (r: Option<string>)
    ensures r.Some? ==> |r.value| > 0 && CleanHost(r.value) && '/' !in r.value
  {
    ValidHost(HostAndPort(full))
  }

  /** The hostname of a parsed host and port, `None` where the constructor throws. */
  function ValidHost(hp: (string, string)): (r: Option<string>)
    ensures r.Some? ==> |r.value| > 0 && CleanHost(r.value) && '/' !in r.value
  {
    var (host, port) := hp;
    if |host| == 0 || !CleanHost(host) || (|port| > 0 && !AllDigits(port[1..])) then None
    else Some(LowerHost(host))
  }

  /** The `catch` branch: strip the scheme and `www.`, keep the text before the first `/`. */
  function Fallback(url: string): (r: string)
    ensures |r| > 0 && '/' !in r
  {
    var head := Text.Before(StripWww(StripScheme(url)), {'/'});
    if |head| == 0 then Unknown
    else
      assert forall i :: 0 <= i < |head| ==> head[i] != '/';
      head
  }

  /** The URL handed to the parser: `https://` is put in front of a URL without a scheme. */
  function WithScheme(u: string): (r: string)
    ensures HasScheme(r)
    ensures HasScheme(u) ==> r == u
    ensures !HasScheme(u) ==> r == "https://" + u
  {
    if HasScheme(u) then u
    else
      var r := "https://" + u;
      assert r[..8] == "https://";
      r
  }

  /** `getDomain(url)`: the domain a credential is grouped and sorted under. */
  function GetDomain(url: Option<string>): (r: string)
    ensures !Text.Truthy(url) ==> r == Unknown
    ensures '/' !in r
  {
    if !Text.Truthy(url) then Unknown
    else
      match Hostname(WithScheme(url.value))
      case Some(h) => StripWww(h)
      case None => Fallback(url.value)
  }

  /** Only a bare `www.` host is filed under the empty domain. */
  lemma EmptyDomainIsBareWww(url: Option<string>)
    requires GetDomain(url) == ""
    ensures Text.Truthy(url)
    ensures Hostname(WithScheme(url.value)) == Some("www.")
  {
    var h := Hostname(WithScheme(url.value));
    assert h.Some? && StripWww(h.value) == "";
    assert "www." + "" == "www.";
  }

  /** `http://` and `https://` name the same domain. */
  lemma SchemeIrrelevant(rest: string)
    ensures GetDomain(Some("http://" + rest)) == GetDomain(Some("https://" + rest))
  {
    var a, b := "http://" + rest, "https://" + rest;
    SchemeStripped(rest);
    ParsedAlike(a, b);
    SameParse(a, b);
  }

  lemma SchemeStripped(rest: string)
    ensures HasScheme("http://" + rest) && StripScheme("http://" + rest) == rest
    ensures HasScheme("https://" + rest) && StripScheme("https://" + rest) == rest
  {
    var a, b := "http://" + rest, "https://" + rest;
    assert a[..7] == "http://" && a[7..] == rest;
    assert !Text.StartsWith(b, "http://") by { assert b[4] == 's'; }
    assert b[..8] == "https://" && b[8..] == rest;
  }

  /** Both the parser and the fallback read a URL only past its scheme. */
  lemma ParsedAlike(a: string, b: string)
    requires StripScheme(a) == StripScheme(b)
    ensures Hostname(a) == Hostname(b) && Fallback(a) == Fallback(b)
  {
    SameHostAndPort(a, b);
    SameFallback(a, b);
  }

  lemma SameHostAndPort(a: string, b: string)
    requires StripScheme(a) == StripScheme(b)
    ensures HostAndPort(a) == HostAndPort(b)
  {
  }

  lemma SameFallback(a: string, b: string)
    requires StripScheme(a) == StripScheme(b)
    ensures Fallback(a) == Fallback(b)
  {
  }

  /** Two URLs that parse alike and fall back alike have the same domain. */
  lemma SameParse(a: string, b: string)
    requires |a| > 0 && |b| > 0
    requires Hostname(WithScheme(a)) == Hostname(WithScheme(b)) && Fallback(a) == Fallback(b)
    ensures GetDomain(Some(a)) == GetDomain(Some(b))
  {
  }

  /** A URL without a scheme is read as an `https://` URL. */
  lemma BareUrlIsHttps(u: string)
    requires |u| > 0 && !HasScheme(u)
    ensures GetDomain(Some(u)) == GetDomain(Some("https://" + u))
  {
    var b := "https://" + u;
    SchemeStripped(u);
    assert WithScheme(u) == b && WithScheme(b) == b;
    ParsedAlike(u, b);
    SameParse(u, b);
  }

  /** Lower-case letters, digits, `.`, `-` and `_`: characters a host keeps as they are. */
  predicate PlainChars(h: string) {
    forall i :: 0 <= i < |h| ==>
      ('a' <= h[i] <= 'z') || ('0' <= h[i] <= '9') || h[i] == '.' || h[i] == '-' || h[i] == '_'
  }

  /** The last label of a host name, ignoring one trailing `.`. */
  function LastLabel(h: string): string {
    var t := if |h| > 0 && h[|h| - 1] == '.' then h[..|h| - 1] else h;
    Text.AfterLast(t, '.')
  }

  predicate HexDigits(s: string) {
    forall i :: 0 <= i < |s| ==> ('0' <= s[i] <= '9') || ('a' <= s[i] <= 'f') || ('A' <= s[i] <= 'F')
  }

  /**
   * A host whose last label is a decimal number or `0x` with hex digits: the URL parser
   * reads such a host as an IPv4 address and rewrites or refuses it.
   */
  predicate EndsInNumber(h: string) {
    var l := LastLabel(h);
    |l| > 0 && (AllDigits(l) || (|l| >= 2 && l[0] == '0' && (l[1] == 'x' || l[1] == 'X') && HexDigits(l[2..])))
  }

  /**
   * A lower-case host name with no `www.` in front, not read as an IPv4 address, and with
   * no `xn--` (a Punycode label, which the parser decodes and may refuse).
   */
  predicate PlainHost(h: string) {
    && |h| > 0 && !Text.StartsWith(h, "www.") && PlainChars(h)
    && !EndsInNumber(h) && !Text.Contains(h, "xn--")
  }

  /** A name of lower-case letters alone, not starting `www.`, is a plain host. */
  lemma WordIsPlain(h: string)
    requires |h| > 0 && forall i :: 0 <= i < |h| ==> 'a' <= h[i] <= 'z'
    requires !Text.StartsWith(h, "www.")
    ensures PlainHost(h)
  {
    Text.AfterLastAbsent(h, '.');
    assert LastLabel(h) == h;
    if Text.Contains(h, "xn--") {
      Text.ContainsNeedsChar(h, "xn--", 2);
      assert false;
    }
  }

  /** `192.168.1.1` is read as an IPv4 address, so it is not a plain host. */
  lemma AddressIsNotPlain()
    ensures EndsInNumber("192.168.1.1") && !PlainHost("192.168.1.1")
  {
    var h := "192.168.1.1";
    assert h[..10][9] == '.';
    assert Text.AfterLast(h, '.') == Text.AfterLast(h[..10], '.') + "1";
    assert LastLabel(h) == "1";
  }

  /** Such a name is its own domain, with or without scheme, `www.` and path. */
  lemma PlainHostIsItsDomain(h: string, path: string)
    requires PlainHost(h)
    requires |path| == 0 || path[0] in AuthorityEnd
    ensures GetDomain(Some(h + path)) == h
    ensures GetDomain(Some("https://www." + h + path)) == h
  {
    BareHostDomain(h, path);
    WwwHostDomain(h, path);
  }

  lemma BareHostDomain(h: string, path: string)
    requires |h| > 0 && !Text.StartsWith(h, "www.") && PlainChars(h)
    requires |path| == 0 || path[0] in AuthorityEnd
    ensures GetDomain(Some(h + path)) == h
  {
    NoSchemeInPlainHost(h, path);
    assert WithScheme(h + path) == "https://" + (h + path);
    HostOfAuthority(h, path);
    assert StripWww(h) == h;
  }

  lemma WwwHostDomain(h: string, path: string)
    requires PlainHost(h)
    requires |path| == 0 || path[0] in AuthorityEnd
    ensures GetDomain(Some("https://www." + h + path)) == h
  {
    var w := "www." + h;
    var u := "https://www." + h + path;
    assert u == "https://" + (w + path);
    WwwPrefix(h);
    HostOfAuthority(w, path);
    HttpsKept(w + path);
    DomainOfHost(u, w);
  }

  lemma HttpsKept(rest: string)
    ensures WithScheme("https://" + rest) == "https://" + rest
  {
    assert ("https://" + rest)[..8] == "https://";
  }

  lemma DomainOfHost(u: string, h: string)
    requires |u| > 0
    requires Hostname(WithScheme(u)) == Some(h)
    ensures GetDomain(Some(u)) == StripWww(h)
  {
  }

  lemma WwwPrefix(h: string)
    requires PlainChars(h)
    ensures PlainChars("www." + h)
    ensures StripWww("www." + h) == h
  {
    var w := "www." + h;
    assert forall i :: 0 <= i < |w| ==> w[i] == if i < 4 then "www."[i] else h[i - 4];
    assert w[..4] == "www." && w[4..] == h;
  }

  /** A URL with a scheme starts `http:` or `https:`. */
  lemma SchemeShape(u: string)
    ensures HasScheme(u) ==>
      && |u| >= 7
      && u[0] == 'h' && u[1] == 't' && u[2] == 't' && u[3] == 'p'
      && (u[4] == ':' || (u[4] == 's' && u[5] == ':'))
  {
    if Text.StartsWith(u, "http://") {
      assert u[..7] == "http://";
      assert u[4] == u[..7][4];
    }
    if Text.StartsWith(u, "https://") {
      assert u[..8] == "https://";
      assert u[5] == u[..8][5];
    }
  }

  lemma NoSchemeInPlainHost(h: string, path: string)
    requires |h| > 0 && PlainChars(h)
    requires |path| == 0 || path[0] in AuthorityEnd
    ensures !HasScheme(h + path)
  {
    var u := h + path;
    SchemeShape(u);
    if |h| > 5 {
      assert u[4] == h[4] && u[5] == h[5];
    } else if |path| > 0 {
      assert u[|h|] == path[0];
    }
  }

  /** The host of `https://` + `host` + `path` when `host` has only plain characters. */
  lemma HostOfAuthority(host: string, path: string)
    requires |host| > 0 && PlainChars(host)
    requires |path| == 0 || path[0] in AuthorityEnd
    ensures Hostname("https://" + (host + path)) == Some(host)
  {
    assert LowerHost(host) == host by {
      assert CleanHost(host);
      Text.ToLowerKeepsLower(host);
    }
    AuthorityOf(host, path);
  }

  lemma AuthorityOf(host: string, path: string)
    requires PlainChars(host)
    requires |path| == 0 || path[0] in AuthorityEnd
    ensures HostAndPort("https://" + (host + path)) == (host, "")
  {
    var full := "https://" + (host + path);
    assert !Text.StartsWith(full, "http://") by { assert full[4] == 's'; }
    assert full[..8] == "https://" && full[8..] == host + path;
    assert StripScheme(full) == host + path;
    Text.BeforeConcat(host, path, AuthorityEnd);
    Text.AfterLastAbsent(host, '@');
    assert host + "" == host;
    Text.BeforeConcat(host, "", {':'});
  }

  /* ------------------------------ ordering ------------------------------ */

  function DomainOf(e: Entry): string {
    GetDomain(Some(e.website))
  }

  function PinRank(e: Entry): int {
    if e.pinned then 1 else 0
  }

  /** The `sort` callback: `pinDiff`, then the domains, then the usernames. */
  function Compare(a: Entry, b: Entry): (c: int)
    ensures c == 0 <==> a.pinned == b.pinned && DomainOf(a) == DomainOf(b) && a.username == b.username
    ensures a.pinned && !b.pinned ==> c < 0
    ensures !a.pinned && b.pinned ==> c > 0
    ensures a.pinned == b.pinned && DomainOf(a) != DomainOf(b) ==>
      c == Text.Compare(DomainOf(a), DomainOf(b))
    ensures a.pinned == b.pinned && DomainOf(a) == DomainOf(b) ==>
      c == Text.Compare(a.username, b.username)
  {
    var pinDiff := PinRank(b) - PinRank(a);
    if pinDiff != 0 then pinDiff
    else
      var d := Text.Compare(DomainOf(a), DomainOf(b));
      if d != 0 then d else Text.Compare(a.username, b.username)
  }

  predicate Precedes(a: Entry, b: Entry) {
    Compare(a, b) <= 0
  }

  lemma CompareAntisymmetric(a: Entry, b: Entry)
    ensures Compare(a, b) == -Compare(b, a)
  {
    Text.CompareAntisymmetric(DomainOf(a), DomainOf(b));
    Text.CompareAntisymmetric(a.username, b.username);
  }

  lemma CompareTransitive(a: Entry, b: Entry, c: Entry)
    requires Compare(a, b) <= 0 && Compare(b, c) <= 0
    ensures Compare(a, c) <= 0
  {
    if a.pinned == b.pinned && b.pinned == c.pinned {
      var da, db, dc := DomainOf(a), DomainOf(b), DomainOf(c);
      Text.CompareTransitive(da, db, dc);
      Text.CompareAntisymmetric(da, db);
      if da == db && db == dc {
        Text.CompareTransitive(a.username, b.username, c.username);
      }
    }
  }

  /** The comparator is consistent: `sort` is handed a total preorder. */
  lemma PrecedesIsTotalPreorder()
    ensures Sorting.TotalPreorder(Precedes)
  {
    forall a, b
      ensures Precedes(a, b) || Precedes(b, a)
    {
      CompareAntisymmetric(a, b);
    }
    forall a, b, c | Precedes(a, b) && Precedes(b, c)
      ensures Precedes(a, c)
    {
      CompareTransitive(a, b, c);
    }
  }

  /**
   * `[...list].sort(...)`: a permutation of the list, pinned first, then by domain and
   * username; `Array.prototype.sort` is stable, so entries the comparator ties keep
   * their order.
   */
  function SortForView(list: seq<Entry>): (r: seq<Entry>)
    ensures multiset(r) == multiset(list)
    ensures Sorting.SortedBy(Precedes, r)
    ensures forall c :: Sorting.Level(r, Precedes, c) == Sorting.Level(list, Precedes, c)
  {
    PrecedesIsTotalPreorder();
    var r := Sorting.Sort(list, Precedes);
    forall c
      ensures Sorting.Level(r, Precedes, c) == Sorting.Level(list, Precedes, c)
    {
      Sorting.SortStable(list, Precedes, c);
    }
    r
  }

  /** In the sorted list every pinned entry comes before every unpinned one. */
  lemma PinnedFirst(list: seq<Entry>)
    ensures var r := SortForView(list);
      forall i, j :: 0 <= i < j < |r| && r[j].pinned ==> r[i].pinned
  {
    var r := SortForView(list);
    forall i, j | 0 <= i < j < |r| && r[j].pinned
      ensures r[i].pinned
    {
      assert Precedes(r[i], r[j]);
    }
  }

  /** Within the pinned and within the unpinned entries, domains ascend. */
  lemma DomainsAscend(list: seq<Entry>)
    ensures var r := SortForView(list);
      forall i, j :: 0 <= i < j < |r| && r[i].pinned == r[j].pinned ==>
        Text.Compare(DomainOf(r[i]), DomainOf(r[j])) <= 0
  {
    var r := SortForView(list);
    forall i, j | 0 <= i < j < |r| && r[i].pinned == r[j].pinned
      ensures Text.Compare(DomainOf(r[i]), DomainOf(r[j])) <= 0
    {
      assert Precedes(r[i], r[j]);
    }
  }

  /* ------------------------------ grouping ------------------------------ */

  /** An object of string keys, in insertion order, each holding an array of items. */
  datatype Groups<T> = Groups(keys: seq<string>, members: map<string, seq<T>>)

  /** The items of `s` whose key is `d`, in order. */
  function WithKey<T>(s: seq<T>, key: T -> string, d: string): (r: seq<T>)
    ensures forall e :: e in r ==> e in s && key(e) == d
  {
    if |s| == 0 then []
    else
      var last := s[|s| - 1];
      WithKey(s[..|s| - 1], key, d) + (if key(last) == d then [last] else [])
  }

  /** One step of the `reduce` callback on an object without inherited names. */
  function AddToGroup<T>(g: Groups<T>, e: T, key: T -> string): Groups<T> {
    var d := key(e);
    if d in g.members then Groups(g.keys, g.members[d := g.members[d] + [e]])
    else Groups(g.keys + [d], g.members[d := [e]])
  }

  /** `g` holds the groups of `s`: distinct keys, one non-empty group per key, items in list order. */
  ghost predicate GroupsOf<T>(g: Groups<T>, s: seq<T>, key: T -> string) {
    && (forall i, j :: 0 <= i < j < |g.keys| ==> g.keys[i] != g.keys[j])
    && (forall d :: d in g.members <==> d in g.keys)
    && (forall i :: 0 <= i < |s| ==> key(s[i]) in g.members)
    && (forall d :: d in g.members ==> g.members[d] == WithKey(s, key, d) && |g.members[d]| > 0)
  }

  /** Grouping of a list by `key` into an object that has only own keys. */
  function Group<T>(s: seq<T>, key: T -> string): (g: Groups<T>)
    ensures forall i, j :: 0 <= i < j < |g.keys| ==> g.keys[i] != g.keys[j]
    ensures forall d :: d in g.members <==> d in g.keys
    ensures forall i :: 0 <= i < |g.keys| ==> g.keys[i] in g.members
    ensures forall i :: 0 <= i < |s| ==> key(s[i]) in g.members
    ensures forall d :: d in g.members ==> g.members[d] == WithKey(s, key, d) && |g.members[d]| > 0
  {
    if |s| == 0 then Groups([], map[])
    else
      var init := s[..|s| - 1];
      var last := s[|s| - 1];
      assert init + [last] == s;
      AddStep(Group(init, key), init, last, key);
      AddToGroup(Group(init, key), last, key)
  }

  /** One `reduce` step keeps the grouping of the prefix read so far. */
  lemma AddStep<T>(g: Groups<T>, s: seq<T>, e: T, key: T -> string)
    requires GroupsOf(g, s, key)
    ensures GroupsOf(AddToGroup(g, e, key), s + [e], key)
  {
    var s' := s + [e];
    var g' := AddToGroup(g, e, key);
    var d0 := key(e);
    forall d | d in g'.members
      ensures g'.members[d] == WithKey(s', key, d) && |g'.members[d]| > 0
    {
      WithKeySnoc(s, e, key, d);
      if d != d0 {
        assert g'.members[d] == g.members[d];
      } else if d0 in g.members {
        assert g'.members[d] == g.members[d] + [e];
      } else {
        WithKeyAbsent(s, key, d);
        assert g'.members[d] == [e];
      }
    }
    forall i | 0 <= i < |s'|
      ensures key(s'[i]) in g'.members
    {
      if i < |s| { assert s'[i] == s[i]; }
    }
    if d0 !in g.members {
      forall i, j | 0 <= i < j < |g'.keys|
        ensures g'.keys[i] != g'.keys[j]
      {
        if j == |g.keys| { assert g.keys[i] in g.members; }
      }
    }
  }

  lemma {:induction false} WithKeyAbsent<T>(s: seq<T>, key: T -> string, d: string)
    requires forall i :: 0 <= i < |s| ==> key(s[i]) != d
    ensures WithKey(s, key, d) == []
    decreases |s|
  {
    if |s| > 0 {
      WithKeyAbsent(s[..|s| - 1], key, d);
    }
  }

  lemma WithKeySnoc<T>(s: seq<T>, e: T, key: T -> string, d: string)
    ensures WithKey(s + [e], key, d) == WithKey(s, key, d) + (if key(e) == d then [e] else [])
  {
    assert (s + [e])[..|s|] == s;
  }

  /** The groups laid end to end in key order. */
  function Flatten<T>(keys: seq<string>, m: map<string, seq<T>>): seq<T>
    requires forall i :: 0 <= i < |keys| ==> keys[i] in m
  {
    if |keys| == 0 then [] else m[keys[0]] + Flatten(keys[1..], m)
  }

  lemma {:induction false} FlattenUnrelated<T>(keys: seq<string>, m: map<string, seq<T>>, d: string, v: seq<T>)
    requires forall i :: 0 <= i < |keys| ==> keys[i] in m && keys[i] != d
    ensures Flatten(keys, m[d := v]) == Flatten(keys, m)
  {
    if |keys| > 0 {
      FlattenUnrelated(keys[1..], m, d, v);
    }
  }

  lemma {:induction false} FlattenSnoc<T>(keys: seq<string>, m: map<string, seq<T>>, d: string)
    requires forall i :: 0 <= i < |keys| ==> keys[i] in m
    requires d in m
    ensures Flatten(keys + [d], m) == Flatten(keys, m) + m[d]
  {
    if |keys| == 0 {
      assert keys + [d] == [d];
    } else {
      assert (keys + [d])[1..] == keys[1..] + [d];
      FlattenSnoc(keys[1..], m, d);
    }
  }

  lemma {:induction false} FlattenGrow<T>(keys: seq<string>, m: map<string, seq<T>>, d: string, e: T)
    requires forall i :: 0 <= i < |keys| ==> keys[i] in m
    requires forall i, j :: 0 <= i < j < |keys| ==> keys[i] != keys[j]
    requires d in keys
    ensures multiset(Flatten(keys, m[d := m[d] + [e]])) == multiset(Flatten(keys, m)) + multiset{e}
  {
    if keys[0] == d {
      assert forall i :: 0 <= i < |keys[1..]| ==> keys[1..][i] == keys[i + 1] && keys[i + 1] != d;
      FlattenUnrelated(keys[1..], m, d, m[d] + [e]);
    } else {
      FlattenGrow(keys[1..], m, d, e);
    }
  }

  /** Grouping is a partition: the groups together hold exactly the items of the list. */
  lemma {:induction false} GroupIsPartition<T>(s: seq<T>, key: T -> string)
    ensures var g := Group(s, key); multiset(Flatten(g.keys, g.members)) == multiset(s)
    decreases |s|
  {
    if |s| > 0 {
      var init := s[..|s| - 1];
      var last := s[|s| - 1];
      GroupIsPartition(init, key);
      GroupSnoc(s, key);
      AddKeepsItems(Group(init, key), last, key);
      MultisetSnoc(s);
    }
  }

  lemma MultisetSnoc<T>(s: seq<T>)
    requires |s| > 0
    ensures multiset(s) == multiset(s[..|s| - 1]) + multiset{s[|s| - 1]}
  {
    assert s == s[..|s| - 1] + [s[|s| - 1]];
  }

  lemma GroupSnoc<T>(s: seq<T>, key: T -> string)
    requires |s| > 0
    ensures Group(s, key) == AddToGroup(Group(s[..|s| - 1], key), s[|s| - 1], key)
  {
  }

  /** The position of the first item of `s` whose key is `d`, or `|s|` when there is none. */
  function FirstIndex<T>(s: seq<T>, key: T -> string, d: string): (n: nat)
    ensures n <= |s|
    ensures n < |s| ==> key(s[n]) == d
    ensures forall p :: 0 <= p < n ==> key(s[p]) != d
  {
    if |s| == 0 then 0
    else if key(s[0]) == d then 0
    else 1 + FirstIndex(s[1..], key, d)
  }

  /** A key of the grouping names some item of the list. */
  lemma KeyOccurs<T>(s: seq<T>, key: T -> string, d: string)
    requires d in Group(s, key).members
    ensures FirstIndex(s, key, d) < |s|
  {
    var w := WithKey(s, key, d);
    assert |w| > 0;
    assert w[0] in s && key(w[0]) == d;
    var p :| 0 <= p < |s| && s[p] == w[0];
    assert key(s[p]) == d;
  }

  /** Appending an item does not move the first occurrence of a key already present. */
  lemma FirstIndexKept<T>(s: seq<T>, key: T -> string, d: string)
    requires |s| > 0
    requires FirstIndex(s[..|s| - 1], key, d) < |s| - 1
    ensures FirstIndex(s, key, d) == FirstIndex(s[..|s| - 1], key, d)
  {
    var init := s[..|s| - 1];
    assert forall k :: 0 <= k < |init| ==> s[k] == init[k];
  }

  /** An appended item with a key new to the list is that key's first occurrence. */
  lemma FirstIndexNew<T>(s: seq<T>, key: T -> string)
    requires |s| > 0
    requires FirstIndex(s[..|s| - 1], key, key(s[|s| - 1])) == |s| - 1
    ensures FirstIndex(s, key, key(s[|s| - 1])) == |s| - 1
  {
    var init := s[..|s| - 1];
    assert forall k :: 0 <= k < |init| ==> s[k] == init[k];
  }

  /** Each key first occurs in `s`, strictly before the first occurrence of every later key. */
  ghost predicate FirstSeenOrder<T>(keys: seq<string>, s: seq<T>, key: T -> string) {
    forall i, j :: 0 <= i < j < |keys| ==> FirstIndex(s, key, keys[i]) < FirstIndex(s, key, keys[j]) < |s|
  }

  /** The keys of the grouping come in first-seen order. */
  lemma {:induction false} GroupKeysFirstSeen<T>(s: seq<T>, key: T -> string)
    ensures FirstSeenOrder(Group(s, key).keys, s, key)
    decreases |s|
  {
    if |s| > 0 {
      var init := s[..|s| - 1];
      var last := s[|s| - 1];
      var gi := Group(init, key);
      GroupKeysFirstSeen(init, key);
      GroupSnoc(s, key);
      forall m | 0 <= m < |gi.keys|
        ensures FirstIndex(init, key, gi.keys[m]) < |init|
      {
        KeyOccurs(init, key, gi.keys[m]);
      }
      FirstSeenStep(s, key, gi.keys, Group(s, key).keys);
    }
  }

  /** One `reduce` step keeps the keys in first-seen order. */
  lemma FirstSeenStep<T>(s: seq<T>, key: T -> string, before: seq<string>, after: seq<string>)
    requires |s| > 0
    requires FirstSeenOrder(before, s[..|s| - 1], key)
    requires forall m :: 0 <= m < |before| ==> FirstIndex(s[..|s| - 1], key, before[m]) < |s| - 1
    requires || after == before
             || (after == before + [key(s[|s| - 1])] && FirstIndex(s[..|s| - 1], key, key(s[|s| - 1])) == |s| - 1)
    ensures FirstSeenOrder(after, s, key)
  {
    var init := s[..|s| - 1];
    forall m | 0 <= m < |before|
      ensures FirstIndex(s, key, before[m]) == FirstIndex(init, key, before[m]) < |init|
    {
      FirstIndexKept(s, key, before[m]);
    }
    if after != before {
      FirstIndexNew(s, key);
    }
  }

  /** One `reduce` step adds exactly its item to the groups laid end to end. */
  lemma AddKeepsItems<T>(g: Groups<T>, e: T, key: T -> string)
    requires forall i, j :: 0 <= i < j < |g.keys| ==> g.keys[i] != g.keys[j]
    requires forall d :: d in g.members <==> d in g.keys
    ensures var g' := AddToGroup(g, e, key);
      && (forall i :: 0 <= i < |g'.keys| ==> g'.keys[i] in g'.members)
      && multiset(Flatten(g'.keys, g'.members)) == multiset(Flatten(g.keys, g.members)) + multiset{e}
  {
    var d := key(e);
    if d in g.members {
      FlattenGrow(g.keys, g.members, d, e);
    } else {
      var m' := g.members[d := [e]];
      FlattenUnrelated(g.keys, g.members, d, [e]);
      FlattenSnoc(g.keys, m', d);
    }
  }

  /** The dashboard's `groupedList`: the sorted list grouped by domain. */
  function GroupByDomain(sorted: seq<Entry>): (g: Groups<Entry>)
    ensures forall i :: 0 <= i < |sorted| ==> DomainOf(sorted[i]) in g.members
    ensures forall d :: d in g.members ==> forall e :: e in g.members[d] ==> DomainOf(e) == d
    ensures forall i :: 0 <= i < |g.keys| ==> g.keys[i] in g.members
    ensures multiset(Flatten(g.keys, g.members)) == multiset(sorted)
  {
    GroupIsPartition(sorted, DomainOf);
    Group(sorted, DomainOf)
  }

  /** Filtering keeps order: the group of a sorted list is sorted. */
  lemma {:induction false} WithKeySorted<T>(s: seq<T>, key: T -> string, d: string, le: (T, T) -> bool)
    requires Sorting.SortedBy(le, s)
    ensures Sorting.SortedBy(le, WithKey(s, key, d))
    decreases |s|
  {
    if |s| > 0 {
      var init, last := s[..|s| - 1], s[|s| - 1];
      assert Sorting.SortedBy(le, init) by {
        assert forall i :: 0 <= i < |init| ==> init[i] == s[i];
      }
      WithKeySorted(init, key, d, le);
      var w := WithKey(init, key, d);
      if key(last) == d {
        forall x | x in w
          ensures le(x, last)
        {
          var i :| 0 <= i < |init| && init[i] == x;
          assert s[i] == x;
        }
        var r := w + [last];
        forall i, j | 0 <= i < j < |r|
          ensures le(r[i], r[j])
        {
          if j == |w| { assert r[i] in w; }
        }
      }
    }
  }

  /** The first `useEffect`: sort the list, then group it by domain. */
  function Arrange(list: seq<Entry>): (g: Groups<Entry>)
    ensures forall i :: 0 <= i < |g.keys| ==> g.keys[i] in g.members
    ensures multiset(Flatten(g.keys, g.members)) == multiset(list)
    ensures forall d :: d in g.members ==> Sorting.SortedBy(Precedes, g.members[d])
  {
    var sorted := SortForView(list);
    var g := GroupByDomain(sorted);
    forall d | d in g.members
      ensures Sorting.SortedBy(Precedes, g.members[d])
    {
      WithKeySorted(sorted, DomainOf, d, Precedes);
    }
    g
  }

  /**
   * The `reduce` callback over an accumulator whose prototype carries the names `inherited`:
   * `!acc[d]` is false for such a name, so the callback calls `push` on a function and
   * throws a TypeError.
   */
  function GroupOver<T>(s: seq<T>, key: T -> string, inherited: set<string>): Result<Groups<T>, string> {
    if |s| == 0 then Success(Groups([], map[]))
    else
      match GroupOver(s[..|s| - 1], key, inherited)
      case Failure(e) => Failure(e)
      case Success(g) =>
        var d := key(s[|s| - 1]);
        if d !in g.members && d in inherited then Failure("TypeError: acc[d].push is not a function")
        else Success(AddToGroup(g, s[|s| - 1], key))
  }

  /** The grouping as written: the accumulator is `{}`, which inherits from `Object.prototype`. */
  function GroupAsWritten(sorted: seq<Entry>): Result<Groups<Entry>, string> {
    GroupOver(sorted, DomainOf, InheritedNames)
  }

  /** The written grouping fails exactly when some domain is an inherited name, and otherwise agrees. */
  lemma GroupAsWrittenFailsExactly(sorted: seq<Entry>)
    ensures GroupAsWritten(sorted).Failure? <==>
      exists i :: 0 <= i < |sorted| && DomainOf(sorted[i]) in InheritedNames
    ensures GroupAsWritten(sorted).Success? ==> GroupAsWritten(sorted).value == GroupByDomain(sorted)
  {
    GroupOverFailsExactly(sorted, DomainOf, InheritedNames);
  }

  lemma {:induction false} GroupOverFailsExactly<T>(s: seq<T>, key: T -> string, inherited: set<string>)
    ensures GroupOver(s, key, inherited).Failure? <==> exists i :: 0 <= i < |s| && key(s[i]) in inherited
    ensures GroupOver(s, key, inherited).Success? ==> GroupOver(s, key, inherited).value == Group(s, key)
    decreases |s|
  {
    if |s| > 0 {
      var init, last := s[..|s| - 1], s[|s| - 1];
      assert s == init + [last];
      GroupOverFailsExactly(init, key, inherited);
      var d := key(last);
      if GroupOver(init, key, inherited).Failure? {
        var i :| 0 <= i < |init| && key(init[i]) in inherited;
        assert s[i] == init[i];
      } else if d in Group(init, key).members || d !in inherited {
        assert forall j :: 0 <= j < |init| ==> key(init[j]) !in inherited;
        if d in Group(init, key).members {
          KnownKeyNotInherited(init, key, d, inherited);
        }
        NoneInherited(init, last, key, inherited);
      }
    }
  }

  lemma NoneInherited<T>(init: seq<T>, last: T, key: T -> string, inherited: set<string>)
    requires forall j :: 0 <= j < |init| ==> key(init[j]) !in inherited
    requires key(last) !in inherited
    ensures forall i :: 0 <= i < |init + [last]| ==> key((init + [last])[i]) !in inherited
  {
    var s := init + [last];
    forall i | 0 <= i < |s|
      ensures key(s[i]) !in inherited
    {
      if i < |init| { assert s[i] == init[i]; }
    }
  }

  /** A key that already has a group came from an item the written grouping accepted. */
  lemma KnownKeyNotInherited<T>(s: seq<T>, key: T -> string, d: string, inherited: set<string>)
    requires forall i :: 0 <= i < |s| ==> key(s[i]) !in inherited
    requires d in Group(s, key).members
    ensures d !in inherited
  {
    var x := Group(s, key).members[d][0];
    assert x in WithKey(s, key, d);
    var i :| 0 <= i < |s| && s[i] == x;
  }

  /** A credential saved for the site `constructor` crashes the written grouping. */
  lemma ConstructorCrashesGrouping(e: Entry)
    requires e.website == "constructor"
    ensures GroupAsWritten([e]).Failure?
  {
    assert !Text.StartsWith("constructor", "www.") by { assert "constructor"[0] == 'c'; }
    BareHostDomain("constructor", "");
    assert "constructor" + "" == "constructor";
    assert DomainOf([e][0]) == "constructor";
    GroupAsWrittenFailsExactly([e]);
  }

  /* ------------------------------ submit ------------------------------ */

  datatype Request = Request(verb: string, url: string, website: string, username: string, password: string)

  datatype Submission = Alert(message: string) | Send(request: Request)

  /** `addOrUpdatePassword`: refuse an empty field, else PUT to the edited id or POST a new one. */
  function Submit(website: string, username: string, password: string, editingId: Option<string>): (r: Submission)
    ensures r.Alert? <==> |website| == 0 || |username| == 0 || |password| == 0
    ensures r.Alert? ==> r.message == "Please fill in all fields."
    ensures r.Send? ==>
      r.request.website == website && r.request.username == username && r.request.password == password
    ensures r.Send? ==> (r.request.verb == "PUT" <==> Text.Truthy(editingId))
    ensures r.Send? && Text.Truthy(editingId) ==> r.request.url == ApiBaseUrl + "/passwords/" + editingId.value
    ensures r.Send? && !Text.Truthy(editingId) ==> r.request == Request("POST", ApiBaseUrl + "/passwords", website, username, password)
  {
    if |website| == 0 || |username| == 0 || |password| == 0 then Alert("Please fill in all fields.")
    else if Text.Truthy(editingId) then
      Send(Request("PUT", ApiBaseUrl + "/passwords/" + editingId.value, website, username, password))
    else Send(Request("POST", ApiBaseUrl + "/passwords", website, username, password))
  }

  /** What the page sends always passes the server's own field check. */
  lemma SubmitPassesServerCheck(website: string, username: string, password: string, editingId: Option<string>)
    ensures Submit(website, username, password, editingId).Send? <==>
      Records.Complete(Records.Form(Some(website), Some(username), Some(password)))
  {
  }

  /* ------------------------------ toggles ------------------------------ */

  /** `handlePinToggle`: the entry with the given `_id` takes the server's pin state. */
  function ApplyPin(list: seq<Entry>, id: string, pinned: bool): (r: seq<Entry>)
    ensures |r| == |list|
    ensures forall i :: 0 <= i < |list| ==> r[i].id == list[i].id
    ensures forall i :: 0 <= i < |list| && list[i].id != id ==> r[i] == list[i]
    ensures forall i :: 0 <= i < |list| && list[i].id == id ==> r[i] == list[i].(pinned := pinned)
  {
    seq(|list|, i requires 0 <= i < |list| => if list[i].id == id then list[i].(pinned := pinned) else list[i])
  }

  lemma ApplyPinIdempotent(list: seq<Entry>, id: string, pinned: bool)
    ensures ApplyPin(ApplyPin(list, id, pinned), id, pinned) == ApplyPin(list, id, pinned)
  {
  }

  /**
   * `handlePinToggle`: the page never checks `res.ok`, so a refused toggle (a 404 or 500
   * body has no `pinned`) writes `undefined`, which every use of `pinned` on the page reads
   * as unpinned.
   */
  function HandlePinToggle(list: seq<Entry>, id: string, reply: Records.Reply): (r: seq<Entry>)
    ensures |r| == |list|
    ensures forall i :: 0 <= i < |list| && list[i].id != id ==> r[i] == list[i]
    ensures forall i :: 0 <= i < |list| && list[i].id == id ==>
      r[i] == list[i].(pinned := reply.body.PinState? && reply.body.pinned)
  {
    var pinned := match reply.body case PinState(p) => p case _ => false;
    ApplyPin(list, id, pinned)
  }

  /**
   * The page follows the server: after a toggle the entry shows the stored pin state when
   * the caller owns the record, and shows it unpinned, with the store unchanged, otherwise.
   */
  lemma PinToggleFollowsServer(st: Records.Store, owner: string, id: string, now: int, list: seq<Entry>)
    ensures var s := Records.TogglePin(st, owner, id, now);
      var k := Records.Find(st.records, id, owner);
      var r := HandlePinToggle(list, id, s.reply);
      && (k.Some? ==> forall i :: 0 <= i < |list| && list[i].id == id ==> r[i].pinned == s.store.records[k.value].pinned)
      && (k.None? ==> s.store == st && forall i :: 0 <= i < |list| && list[i].id == id ==> !r[i].pinned)
  {
  }

  /** `p[key]` on a state object: an own key, else an inherited name (a truthy function), else undefined. */
  function Lookup(m: map<string, bool>, key: string): bool {
    if key in m then m[key] else key in InheritedNames
  }

  /** `toggleGroup` and `togglePasswordVisibility`: `{ ...p, [key]: !p[key] }`. */
  function Toggle(m: map<string, bool>, key: string): (r: map<string, bool>)
    ensures r.Keys == m.Keys + {key}
    ensures Lookup(r, key) == !Lookup(m, key)
    ensures forall k :: k != key ==> Lookup(r, k) == Lookup(m, k)
  {
    m[key := !Lookup(m, key)]
  }

  /** Toggling the same key twice restores every reading of the state. */
  lemma ToggleTwice(m: map<string, bool>, key: string)
    ensures forall k :: Lookup(Toggle(Toggle(m, key), key), k) == Lookup(m, k)
  {
  }

  /* ------------------------------ autofill ------------------------------ */

  /** `handleSeamlessAutofill` as written: any website starting with `http` is taken as a URL. */
  function AutofillTargetAsWritten(website: string): string {
    if Text.StartsWith(website, "http") then website else "https://" + website
  }

  /** A site whose name starts with `http` is dispatched with no scheme at all. */
  lemma AsWrittenTargetLacksScheme()
    ensures AutofillTargetAsWritten("httpbin.org") == "httpbin.org"
    ensures !HasScheme(AutofillTargetAsWritten("httpbin.org"))
  {
    var w := "httpbin.org";
    assert Text.StartsWith(w, "http") by { assert w[..4] == "http"; }
    assert !Text.StartsWith(w, "http://") by { assert w[4] == 'b'; }
    assert !Text.StartsWith(w, "https://") by { assert w[4] == 'b'; }
  }

  /** The target with the scheme test `getDomain` uses: only a missing scheme is added. */
  function AutofillTarget(website: string): (r: string)
    ensures HasScheme(r)
    ensures StripScheme(r) == StripScheme(website)
  {
    SchemeStripped(website);
    WithScheme(website)
  }

  lemma TargetAddsScheme(website: string)
    ensures AutofillTarget(website) == WithScheme(website)
  {
  }

  /** Written and corrected targets agree whenever the website really has a scheme or lacks `http`. */
  lemma AutofillTargetAgrees(website: string)
    requires HasScheme(website) || !Text.StartsWith(website, "http")
    ensures AutofillTargetAsWritten(website) == AutofillTarget(website)
  {
    TargetAddsScheme(website);
    if Text.StartsWith(website, "http://") {
      assert website[..4] == "http://"[..4];
    } else if Text.StartsWith(website, "https://") {
      assert website[..4] == "https://"[..4];
    }
  }

  datatype AutofillRequest = AutofillRequest(username: string, password: string, targetUrl: string)

  /**
   * `handleSeamlessAutofill` as written: the `autofillRequest` event detail for a credential.
   * A website that starts with `http` is sent unchanged, so it only gets a scheme, and only lands
   * on the credential's domain, when it really begins with `http://` or `https://` or does not
   * start with `http` at all.
   */
  function SeamlessAutofill(e: Entry): (r: AutofillRequest)
    ensures r.username == e.username && r.password == e.password
    ensures Text.StartsWith(e.website, "http") ==> r.targetUrl == e.website
    ensures HasScheme(e.website) || !Text.StartsWith(e.website, "http") ==>
      && HasScheme(r.targetUrl)
      && GetDomain(Some(r.targetUrl)) == DomainOf(e)
  {
    var r := AutofillRequest(e.username, e.password, AutofillTargetAsWritten(e.website));
    if HasScheme(e.website) || !Text.StartsWith(e.website, "http") then
      AutofillTargetAgrees(e.website);
      assert r == SeamlessAutofillIntended(e);
      r
    else r
  }

  /** The event detail built on the corrected target: always a scheme, always the credential's domain. */
  function SeamlessAutofillIntended(e: Entry): (r: AutofillRequest)
    ensures r.username == e.username && r.password == e.password
    ensures HasScheme(r.targetUrl)
    ensures GetDomain(Some(r.targetUrl)) == DomainOf(e)
  {
    var r := AutofillRequest(e.username, e.password, AutofillTarget(e.website));
    if !HasScheme(e.website) && |e.website| > 0 then
      BareUrlIsHttps(e.website);
      r
    else if |e.website| == 0 then
      BareSchemeIsUnknown();
      r
    else r
  }

  /** A lone `https://` parses to no host and falls back to "unknown", like an empty website. */
  lemma BareSchemeIsUnknown()
    ensures GetDomain(Some("https://")) == Unknown
  {
    var u := "https://";
    assert !Text.StartsWith(u, "http://") by { assert u[..7][4] != "http://"[4]; }
    assert Text.StartsWith(u, "https://") by { assert u[..8] == u; }
    assert StripScheme(u) == "";
    assert HostAndPort(u).0 == "" by {
      assert Text.Before("", AuthorityEnd) == "";
      assert Text.AfterLast("", '@') == "";
      assert Text.Before("", {':'}) == "";
    }
    assert Hostname(u).None?;
    assert Fallback(u) == Unknown by {
      assert StripWww("") == "";
      assert Text.Before("", {'/'}) == "";
    }
  }
}
