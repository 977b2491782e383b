/**
 * A resource to fetch from a PageSeeder server: its type, its name (which may
 * carry a query and a fragment), its request parameters, the builder that
 * validates them, and the assembly of the URL that reaches it.
 *
 * The server configuration (PSConfiguration.getProperties) is a map from
 * property names to values, `URLEncoder.encode(_, "utf-8")` is a parameter,
 * and the iteration order of the parameter map is an input listing its keys.
 */
module PageSeederResources {
  import opened Common

  /** The kinds of resource that decide the URL prefix. */
  datatype ResourceType = Servlet | Service | Resource

  /** The user on whose behalf a resource is fetched; only the session id matters here. */
  datatype PageSeederUser = PageSeederUser(jsessionId: Option<string>)

  // ---------------------------------------------------------------------------
  // Decomposing a resource name
  // ---------------------------------------------------------------------------

  /** The text of an optional part, "" when absent. */
  function OrEmpty(part: Option<string>): string
  {
    if part.Some? then part.value else ""
  }

  /**
   * `getURLPath`: the name cut at its last '#' (when that is not the first
   * character), then at the first remaining '?' (likewise).
   */
  function GetURLPath(resource: string): string
  {
    var h := LastIndexOfChar(resource, '#');
    var cut := if h > 0 then resource[..h] else resource;
    var q := IndexOfChar(cut, '?');
    if q > 0 then cut[..q] else cut
  }

  /**
   * `getURLQuery`: from the first '?' up to the last '#' when that follows
   * it, else to the end; none when there is no '?' or a '#' after the first
   * character precedes it.
   */
  function GetURLQuery(resource: string): Option<string>
  {
    var q := IndexOfChar(resource, '?');
    var h := LastIndexOfChar(resource, '#');
    if q < 0 || (h > 0 && h < q) then None
    else if h > q then Some(resource[q..h])
    else Some(resource[q..])
  }

  /** `getURLFragment`: the suffix from the FIRST '#', or none. */
  function GetURLFragment(resource: string): Option<string>
  {
    var h := IndexOfChar(resource, '#');
    if h >= 0 then Some(resource[h..]) else None
  }

  /** The path is a prefix of the name, ending where the name ends or at a '#' or '?'. */
  lemma PathIsDelimitedPrefix(resource: string)
    ensures GetURLPath(resource) <= resource
    ensures var n := |GetURLPath(resource)|;
      n == |resource| || resource[n] == '#' || resource[n] == '?'
  {
    var h := LastIndexOfChar(resource, '#');
    LastIndexOfCharIsLast(resource, '#');
    var cut := if h > 0 then resource[..h] else resource;
    var q := IndexOfChar(cut, '?');
    IndexOfCharIsFirst(cut, '?');
    if q > 0 {
      assert cut[..q] == resource[..q];
      assert cut[q] == resource[q];
    } else if h > 0 {
      assert cut == resource[..h];
    }
  }

  /**
   * The query is absent exactly when there is no '?' or a '#' after the first
   * character comes before the first '?'; otherwise it is text of the name
   * starting at its first '?'.
   */
  lemma QueryStartsAtFirstQuestionMark(resource: string)
    ensures GetURLQuery(resource).None? <==>
      ('?' !in resource || 0 < LastIndexOfChar(resource, '#') < IndexOfChar(resource, '?'))
    ensures GetURLQuery(resource).Some? ==>
      var query := GetURLQuery(resource).value;
      |query| > 0 && query[0] == '?' && OccursAt(resource, query, IndexOfChar(resource, '?'))
  {
    var q := IndexOfChar(resource, '?');
    IndexOfCharIsFirst(resource, '?');
    if GetURLQuery(resource).Some? {
      var query := GetURLQuery(resource).value;
      assert resource[q..q + |query|] == query;
    }
  }

  /** The fragment is absent exactly when there is no '#'; otherwise it is the suffix from the first '#'. */
  lemma FragmentIsSuffixFromFirstHash(resource: string)
    ensures GetURLFragment(resource).None? <==> '#' !in resource
    ensures GetURLFragment(resource).Some? ==>
      var frag := GetURLFragment(resource).value;
      |frag| > 0 && frag[0] == '#' && EndsWith(resource, frag) && '#' !in resource[..|resource| - |frag|]
  {
    var h := IndexOfChar(resource, '#');
    IndexOfCharIsFirst(resource, '#');
    if h >= 0 {
      assert resource[..|resource| - |resource[h..]|] == resource[..h];
    }
  }

  /** The first occurrence of `c` in a prefix is its first occurrence in the whole, if that lies inside the prefix. */
  lemma IndexOfCharInPrefix(s: string, c: char, n: nat)
    requires n <= |s|
    ensures IndexOfChar(s[..n], c) == if IndexOfChar(s, c) < n then IndexOfChar(s, c) else -1
  {
    var i := IndexOfChar(s, c);
    IndexOfCharIsFirst(s, c);
    IndexOfCharIsFirst(s[..n], c);
    if 0 <= i < n {
      assert s[..n][i] == c;
      assert s[..n][..i] == s[..i];
    } else if i < 0 {
      forall k | 0 <= k < n ensures s[..n][k] != c {
        assert s[..n][k] == s[k];
      }
    } else {
      assert s[..n] == s[..i][..n];
    }
  }

  /** Without '#', the name splits at its first '?' (when that is not the first character). */
  lemma SplitWithoutHash(name: string)
    requires IndexOfChar(name, '#') < 0 && IndexOfChar(name, '?') != 0
    ensures var q := IndexOfChar(name, '?');
      && GetURLPath(name) == (if q > 0 then name[..q] else name)
      && GetURLQuery(name) == (if q > 0 then Some(name[q..]) else None)
      && GetURLFragment(name).None?
  {
    CharIndicesAgree(name, '#');
  }

  /** With one '#' after the first character, the fragment starts there and the path and query split what precedes it. */
  lemma SplitWithOneHash(name: string)
    requires IndexOfChar(name, '#') == LastIndexOfChar(name, '#') > 0
    requires IndexOfChar(name, '?') != 0
    ensures var h := IndexOfChar(name, '#');
            var q := IndexOfChar(name, '?');
      && GetURLPath(name) == (if 0 < q < h then name[..q] else name[..h])
      && GetURLQuery(name) == (if 0 < q < h then Some(name[q..h]) else None)
      && GetURLFragment(name) == Some(name[h..])
  {
    var h := IndexOfChar(name, '#');
    var q := IndexOfChar(name, '?');
    CharIndicesAgree(name, '#');
    CharIndicesAgree(name, '?');
    IndexOfCharInPrefix(name, '?', h);
    if 0 < q < h {
      assert name[..h][..q] == name[..q];
    }
  }

  /** Three consecutive slices of a string put back together give the string. */
  lemma GlueSlices(name: string, i: nat, j: nat, first: string, middle: string, last: string)
    requires i <= j <= |name|
    requires first == name[..i] && middle == name[i..j] && last == name[j..]
    ensures first + middle + last == name
  {
    assert name[..i] + name[i..j] + name[j..] == name;
  }

  /** Recomposition for a name with a '?' after its first character and no '#'. */
  lemma RecomposeQueryOnly(name: string)
    requires IndexOfChar(name, '#') < 0 && IndexOfChar(name, '?') > 0
    ensures GetURLPath(name) + OrEmpty(GetURLQuery(name)) + OrEmpty(GetURLFragment(name)) == name
  {
    SplitWithoutHash(name);
    var q := IndexOfChar(name, '?');
    GlueSlices(name, q, |name|, GetURLPath(name), OrEmpty(GetURLQuery(name)), OrEmpty(GetURLFragment(name)));
  }

  /** Recomposition for a name with neither '?' nor '#'. */
  lemma RecomposePlain(name: string)
    requires IndexOfChar(name, '#') < 0 && IndexOfChar(name, '?') < 0
    ensures GetURLPath(name) + OrEmpty(GetURLQuery(name)) + OrEmpty(GetURLFragment(name)) == name
  {
    SplitWithoutHash(name);
    GlueSlices(name, |name|, |name|, GetURLPath(name), OrEmpty(GetURLQuery(name)), OrEmpty(GetURLFragment(name)));
  }

  /** Recomposition for a name with one '#' after its first character. */
  lemma RecomposeWithOneHash(name: string)
    requires IndexOfChar(name, '#') == LastIndexOfChar(name, '#') > 0
    requires IndexOfChar(name, '?') != 0
    ensures GetURLPath(name) + OrEmpty(GetURLQuery(name)) + OrEmpty(GetURLFragment(name)) == name
  {
    SplitWithOneHash(name);
    var h := IndexOfChar(name, '#');
    var q := IndexOfChar(name, '?');
    var path, query, frag := GetURLPath(name), OrEmpty(GetURLQuery(name)), OrEmpty(GetURLFragment(name));
    if 0 < q < h {
      GlueSlices(name, q, h, path, query, frag);
    } else {
      GlueSlices(name, h, h, path, query, frag);
    }
  }

  /**
   * Path, query and fragment put back together give the name again, when the
   * name has at most one '#' and neither '#' nor '?' is its first character.
   */
  lemma DecompositionRecomposes(name: string)
    requires IndexOfChar(name, '#') == LastIndexOfChar(name, '#')
    requires IndexOfChar(name, '#') != 0 && IndexOfChar(name, '?') != 0
    ensures GetURLPath(name) + OrEmpty(GetURLQuery(name)) + OrEmpty(GetURLFragment(name)) == name
  {
    if IndexOfChar(name, '#') < 0 && IndexOfChar(name, '?') > 0 {
      RecomposeQueryOnly(name);
    } else if IndexOfChar(name, '#') < 0 {
      RecomposePlain(name);
    } else {
      RecomposeWithOneHash(name);
    }
  }

  /** With two '#', the path keeps text up to the last one and the fragment starts at the first: the middle is sent twice. */
  lemma TwoHashesDuplicateText()
    ensures GetURLPath("a#b#c") == "a#b"
    ensures GetURLQuery("a#b#c").None?
    ensures GetURLFragment("a#b#c") == Some("#b#c")
  {
    var s := "a#b#c";
    assert s[..4] == "a#b#";
    assert LastIndexOfChar(s, '#') == 3;
    assert s[1..] == "#b#c";
    assert IndexOfChar(s, '#') == 1;
    assert s[..3] == "a#b";
    IndexOfCharIsFirst(s, '?');
    IndexOfCharIsFirst(s[..3], '?');
    assert '?' !in s by { assert forall k :: 0 <= k < |s| ==> s[k] != '?'; }
    assert '?' !in s[..3] by { assert forall k :: 0 <= k < 3 ==> s[..3][k] != '?'; }
  }

  // ---------------------------------------------------------------------------
  // URL assembly
  // ---------------------------------------------------------------------------

  /** `Properties.getProperty(key, default)`. */
  function Property(config: map<string, string>, key: string, default: string): string
  {
    if key in config then config[key] else default
  }

  /** scheme://host:port */
  function BaseURL(config: map<string, string>): string
  {
    Property(config, "scheme", "http") + "://" + Property(config, "host", "localhost") + ":" + Property(config, "port", "8080")
  }

  /** The part a resource type puts in front of the path. */
  function TypePrefix(kind: ResourceType, config: map<string, string>): string
  {
    match kind
    case Servlet => Property(config, "servletprefix", "/ps/servlet") + "/"
    case Service => Property(config, "siteprefix", "/ps") + "/service"
    case Resource => ""
  }

  /** ";jsessionid=<id>" when the user and its session id are both present. */
  function SessionPart(user: Option<PageSeederUser>): string
  {
    if user.Some? && user.value.jsessionId.Some? then ";jsessionid=" + user.value.jsessionId.value else ""
  }

  /** The name's query followed by "&xformat=xml", or "?xformat=xml" alone. */
  function QueryPart(query: Option<string>): string
  {
    if query.Some? then query.value + "&xformat=xml" else "?xformat=xml"
  }

  /** One encoded "&key=value" pair. */
  function ParameterPair(key: string, value: string, encode: string -> string): string
  {
    "&" + encode(key) + "=" + encode(value)
  }

  /** The encoded pairs of the parameters, in the given iteration order. */
  function ParameterPart(order: seq<string>, params: map<string, string>, encode: string -> string): string
    requires forall i :: 0 <= i < |order| ==> order[i] in params
  {
    if order == [] then ""
    else ParameterPair(order[0], params[order[0]], encode) + ParameterPart(order[1..], params, encode)
  }

  /** `order` lists every key of the map exactly once, as an entry-set iteration does. */
  predicate Enumerates(order: seq<string>, keys: set<string>)
  {
    && (forall i :: 0 <= i < |order| ==> order[i] in keys)
    && (forall k :: k in keys ==> k in order)
    && (forall i, j :: 0 <= i < j < |order| ==> order[i] != order[j])
  }

  /** What `toURL` writes before the query: base, type prefix, path and session id. */
  function URLHead(kind: ResourceType, name: string, user: Option<PageSeederUser>, config: map<string, string>): string
  {
    BaseURL(config) + TypePrefix(kind, config) + GetURLPath(name) + SessionPart(user)
  }

  /** What `toURL` writes from the query on: query and flag, parameters, fragment. */
  function URLTail(name: string, params: map<string, string>, order: seq<string>, encode: string -> string): string
    requires Enumerates(order, params.Keys)
  {
    QueryPart(GetURLQuery(name)) + ParameterPart(order, params, encode) + OrEmpty(GetURLFragment(name))
  }

  /** The URL `toURL` assembles for a resource. */
  function URLOf(kind: ResourceType, name: string, params: map<string, string>, order: seq<string>,
                 user: Option<PageSeederUser>, config: map<string, string>, encode: string -> string): string
    requires Enumerates(order, params.Keys)
  {
    URLHead(kind, name, user, config) + URLTail(name, params, order, encode)
  }

  /** Every parameter contributes its encoded pair. */
  lemma {:induction false} EveryParameterSent(order: seq<string>, params: map<string, string>, encode: string -> string, i: nat)
    requires forall j :: 0 <= j < |order| ==> order[j] in params
    requires i < |order|
    ensures Contains(ParameterPart(order, params, encode), ParameterPair(order[i], params[order[i]], encode))
  {
    var part := ParameterPart(order, params, encode);
    var pair := ParameterPair(order[i], params[order[i]], encode);
    if i == 0 {
      assert OccursAt(part, pair, 0) by { assert part[..|pair|] == pair; }
    } else {
      EveryParameterSent(order[1..], params, encode, i - 1);
      var first := ParameterPair(order[0], params[order[0]], encode);
      var rest := ParameterPart(order[1..], params, encode);
      var at :| 0 <= at <= |rest| - |pair| && OccursAt(rest, pair, at);
      assert part == first + rest;
      assert part[|first| + at..|first| + at + |pair|] == rest[at..at + |pair|];
      assert OccursAt(part, pair, |first| + at);
    }
  }

  /**
   * Against a default configuration, a plain name (no query, no fragment) of
   * a servlet with no parameters and no session is reached at
   * http://localhost:8080/ps/servlet/<name>?xformat=xml.
   */
  lemma DefaultServletURL(name: string, encode: string -> string)
    requires IndexOfChar(name, '?') < 0 && IndexOfChar(name, '#') < 0
    ensures URLOf(Servlet, name, map[], [], None, map[], encode)
         == "http://localhost:8080/ps/servlet/" + name + "?xformat=xml"
  {
    DefaultServletHead(name);
    SplitWithoutHash(name);
    assert URLTail(name, map[], [], encode) == "?xformat=xml" + "" + "";
  }

  /** The head of the default servlet URL of a plain name. */
  lemma DefaultServletHead(name: string)
    requires IndexOfChar(name, '?') < 0 && IndexOfChar(name, '#') < 0
    ensures URLHead(Servlet, name, None, map[]) == "http://localhost:8080/ps/servlet/" + name
  {
    SplitWithoutHash(name);
    assert BaseURL(map[]) + TypePrefix(Servlet, map[]) == "http://localhost:8080/ps/servlet/";
  }

  /** The URL starts with the base, the type prefix and the path, followed by the session id when there is one. */
  lemma URLStartsWithPath(kind: ResourceType, name: string, params: map<string, string>, order: seq<string>,
                          user: Option<PageSeederUser>, config: map<string, string>, encode: string -> string)
    requires Enumerates(order, params.Keys)
    ensures BaseURL(config) + TypePrefix(kind, config) + GetURLPath(name) <= URLOf(kind, name, params, order, user, config, encode)
    ensures user.Some? && user.value.jsessionId.Some? ==>
      BaseURL(config) + TypePrefix(kind, config) + GetURLPath(name) + ";jsessionid=" + user.value.jsessionId.value
        <= URLOf(kind, name, params, order, user, config, encode)
  {
    var path := BaseURL(config) + TypePrefix(kind, config) + GetURLPath(name);
    PrefixesOfConcat(path, SessionPart(user), URLTail(name, params, order, encode));
    if user.Some? && user.value.jsessionId.Some? {
      ConcatAssoc(path, ";jsessionid=", user.value.jsessionId.value);
    }
  }

  /** The first part, and the first two parts, of a concatenation are prefixes of it. */
  lemma PrefixesOfConcat(a: string, b: string, c: string)
    ensures a <= a + b + c && a + b <= a + b + c
  {
    assert (a + b + c)[..|a|] == a;
    assert (a + b + c)[..|a + b|] == a + b;
  }

  /** The name's fragment, when it has one, ends the URL. */
  lemma URLEndsWithFragment(kind: ResourceType, name: string, params: map<string, string>, order: seq<string>,
                            user: Option<PageSeederUser>, config: map<string, string>, encode: string -> string)
    requires Enumerates(order, params.Keys)
    requires GetURLFragment(name).Some?
    ensures EndsWith(URLOf(kind, name, params, order, user, config, encode), GetURLFragment(name).value)
  {
    var frag := GetURLFragment(name).value;
    SuffixOfConcat(QueryPart(GetURLQuery(name)) + ParameterPart(order, params, encode), frag);
    EndsWithExtended(URLHead(kind, name, user, config), URLTail(name, params, order, encode), frag);
  }

  /** Whatever is put in front of a string, it keeps its ending. */
  lemma EndsWithExtended(a: string, b: string, suffix: string)
    requires EndsWith(b, suffix)
    ensures EndsWith(a + b, suffix)
  {
    assert (a + b)[|a + b| - |suffix|..] == b[|b| - |suffix|..];
  }

  /** A string ends with what was appended to it. */
  lemma SuffixOfConcat(a: string, b: string)
    ensures EndsWith(a + b, b)
  {
    assert (a + b)[|a|..] == b;
  }

  /** The resource as built: type and name are fixed; the map is the shared empty map unless parameters were given. */
  class PSResource {
    const kind: ResourceType
    const name: string
    /** Whether the parameter map accepts `put` (false for `Collections.emptyMap()`). */
    const mutableParameters: bool
    var parameters: map<string, string>

    /** `PSResource(type, name)`: no parameters, and an immutable empty map. */
    constructor (kind: ResourceType, name: string)
      ensures this.kind == kind && this.name == name
      ensures parameters == map[] && !mutableParameters
    {
      this.kind := kind;
      this.name := name;
      this.parameters := map[];
      this.mutableParameters := false;
    }

    /** The private constructor: the resource takes the given (mutable) map. */
    constructor WithParameters(kind: ResourceType, name: string, parameters: map<string, string>)
      ensures this.kind == kind && this.name == name
      ensures this.parameters == parameters && mutableParameters
    {
      this.kind := kind;
      this.name := name;
      this.parameters := parameters;
      this.mutableParameters := true;
    }

    /** `addParameter`: puts into the map, which the empty map refuses. */
    method AddParameter(key: string, value: string) returns (failure: Option<Exception>)
      modifies this
      ensures !mutableParameters ==> failure == Some(UnsupportedOperation) && parameters == old(parameters)
      ensures mutableParameters ==> failure.None? && parameters == old(parameters)[key := value]
    {
      if !mutableParameters {
        return Some(UnsupportedOperation);
      }
      parameters := parameters[key := value];
      return None;
    }

    /** `toURL`: appends each part in turn to a buffer; `order` is the map's iteration order. */
    method ToURL(user: Option<PageSeederUser>, config: map<string, string>, encode: string -> string,
                 order: seq<string>) returns (url: string)
      requires Enumerates(order, parameters.Keys)
      ensures url == URLOf(kind, name, parameters, order, user, config, encode)
    {
      url := Property(config, "scheme", "http") + "://";
      url := url + Property(config, "host", "localhost") + ":";
      url := url + Property(config, "port", "8080");
      ghost var base := url;
      var path := GetURLPath(name);
      var query := GetURLQuery(name);
      var frag := GetURLFragment(name);
      if kind == Servlet {
        url := url + (Property(config, "servletprefix", "/ps/servlet") + "/");
      } else if kind == Service {
        url := url + (Property(config, "siteprefix", "/ps") + "/service");
      } else {
        assert url == base + "";
      }
      url := url + path;
      assert url == BaseURL(config) + TypePrefix(kind, config) + GetURLPath(name);
      if user.Some? && user.value.jsessionId.Some? {
        url := url + (";jsessionid=" + user.value.jsessionId.value);
      } else {
        assert url == url + "";
      }
      assert url == URLHead(kind, name, user, config);
      if query.Some? {
        url := url + (query.value + "&xformat=xml");
      } else {
        url := url + "?xformat=xml";
      }
      url := AppendParameters(url, order, parameters, encode);
      url := url + OrEmpty(frag);
      URLOfInAppendOrder(kind, name, parameters, order, user, config, encode);
    }
  }

  /** The URL regrouped as `toURL` appends it: head, query, parameters, fragment. */
  lemma URLOfInAppendOrder(kind: ResourceType, name: string, params: map<string, string>, order: seq<string>,
                           user: Option<PageSeederUser>, config: map<string, string>, encode: string -> string)
    requires Enumerates(order, params.Keys)
    ensures URLOf(kind, name, params, order, user, config, encode)
         == URLHead(kind, name, user, config) + QueryPart(GetURLQuery(name)) + ParameterPart(order, params, encode)
            + OrEmpty(GetURLFragment(name))
  {
  }

  /** The entry-set loop of `toURL`: appends "&key=value" for each key, in iteration order. */
  method AppendParameters(url: string, order: seq<string>, params: map<string, string>, encode: string -> string)
    returns (r: string)
    requires forall j :: 0 <= j < |order| ==> order[j] in params
    ensures r == url + ParameterPart(order, params, encode)
  {
    r := url;
    var i := 0;
    assert r == url + ParameterPart(order[..0], params, encode);
    while i < |order|
      invariant 0 <= i <= |order|
      invariant r == url + ParameterPart(order[..i], params, encode)
    {
      var key := order[i];
      ParameterPartSnoc(order, params, encode, i);
      r := r + (("&" + encode(key)) + "=" + encode(params[key]));
      i := i + 1;
    }
    assert order[..i] == order;
  }

  /** Sending one more parameter appends its pair. */
  lemma {:induction false} ParameterPartSnoc(order: seq<string>, params: map<string, string>, encode: string -> string, i: nat)
    requires forall j :: 0 <= j < |order| ==> order[j] in params
    requires i < |order|
    ensures ParameterPart(order[..i + 1], params, encode)
         == ParameterPart(order[..i], params, encode) + ParameterPair(order[i], params[order[i]], encode)
    decreases i
  {
    if i == 0 {
      assert order[..1][1..] == [];
    } else {
      ParameterPartSnoc(order[1..], params, encode, i - 1);
      assert order[..i + 1][1..] == order[1..][..i];
      assert order[..i][1..] == order[1..][..i - 1];
    }
  }

  /** The resource builder: type and name may be unset until `build`. */
  class Builder {
    var kind: Option<ResourceType>
    var name: Option<string>
    var parameters: map<string, string>

    /** `Builder()` */
    constructor ()
      ensures kind.None? && name.None? && parameters == map[]
    {
      kind := None;
      name := None;
      parameters := map[];
    }

    /** `Builder(type, name)` */
    constructor Of(kind: Option<ResourceType>, name: Option<string>)
      ensures this.kind == kind && this.name == name && parameters == map[]
    {
      this.kind := kind;
      this.name := name;
      parameters := map[];
    }

    /** `type(type)` */
    method SetType(kind: Option<ResourceType>) returns (self: Builder)
      modifies this
      ensures self == this && this.kind == kind
      ensures name == old(name) && parameters == old(parameters)
    {
      this.kind := kind;
      return this;
    }

    /** `name(name)` */
    method SetName(name: Option<string>) returns (self: Builder)
      modifies this
      ensures self == this && this.name == name
      ensures kind == old(kind) && parameters == old(parameters)
    {
      this.name := name;
      return this;
    }

    /** `addParameter(name, value)` */
    method AddParameter(key: string, value: string) returns (self: Builder)
      modifies this
      ensures self == this && parameters == old(parameters)[key := value]
      ensures kind == old(kind) && name == old(name)
    {
      parameters := parameters[key := value];
      return this;
    }

    /**
     * `build`: fails with IllegalStateException while the type or the name is
     * unset; otherwise a new resource with the empty map, or with its own copy
     * of the parameters, so later changes to the builder do not reach it.
     */
    method Build() returns (r: Result<PSResource>)
      ensures kind.None? ==> r == Err(IllegalState)
      ensures kind.Some? && name.None? ==> r == Err(IllegalState)
      ensures kind.Some? && name.Some? ==> r.Ok? && fresh(r.value)
      ensures r.Ok? ==> r.value.kind == kind.value && r.value.name == name.value
      ensures r.Ok? ==> r.value.parameters == parameters && (r.value.mutableParameters <==> parameters != map[])
    {
      if kind.None? {
        return Err(IllegalState);
      }
      if name.None? {
        return Err(IllegalState);
      }
      if parameters == map[] {
        var resource := new PSResource(kind.value, name.value);
        return Ok(resource);
      }
      var resource := new PSResource.WithParameters(kind.value, name.value, parameters);
      return Ok(resource);
    }
  }

  /** A built resource keeps its parameters when the builder is changed afterwards. */
  method BuildThenChange(b: Builder, key: string, value: string) returns (resource: PSResource)
    requires b.kind.Some? && b.name.Some?
    modifies b
    ensures resource.parameters == old(b.parameters)
    ensures b.parameters == old(b.parameters)[key := value]
  {
    var built := b.Build();
    resource := built.value;
    var _ := b.AddParameter(key, value);
  }
}
