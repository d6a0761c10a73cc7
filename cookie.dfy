/**
  The server's cookie class: parsing a `Cookie` request header into cookies,
  picking the session id out of it, and serialising one cookie for a
  `Set-Cookie` header. The parsing follows the code rather than RFC 6265;
  in particular a parsed value keeps the `=` that separated it from its name.
 */
module Cookies {
  import opened JavaLang

  /** The name of the session cookie. */
  const JSESSIONID: string := "JSESSIONID"

  /** Java's string conversion inside `+`: a null reference prints as "null". */
  function Text(s: Option<string>): string
  {
    match s
    case Some(v) => v
    case None => "null"
  }

  class Cookie {
    var name: Option<string>
    var value: Option<string>
    var domain: Option<string>
    var path: Option<string>
    /** The text `Date.toString()` gives for the expiry date; None while no date is set. */
    var expireDate: Option<string>
    var create: bool
    var httpOnly: bool

    /** `new Cookie()`: every reference null except the path, which is "/". */
    constructor ()
      ensures name == None && value == None && domain == None
      ensures path == Some("/") && expireDate == None
      ensures !create && !httpOnly
    {
      name, value, domain := None, None, None;
      path, expireDate := Some("/"), None;
      create, httpOnly := false, false;
    }

    /** `new Cookie(create)`. */
    constructor WithCreate(create: bool)
      ensures name == None && value == None && domain == None
      ensures path == Some("/") && expireDate == None
      ensures this.create == create && !httpOnly
    {
      name, value, domain := None, None, None;
      path, expireDate := Some("/"), None;
      this.create, httpOnly := create, false;
    }

    method SetName(name: Option<string>)
      modifies this`name
      ensures this.name == name
    {
      this.name := name;
    }

    method SetValue(value: Option<string>)
      modifies this`value
      ensures this.value == value
    {
      this.value := value;
    }

    method SetDomain(domain: Option<string>)
      modifies this`domain
      ensures this.domain == domain
    {
      this.domain := domain;
    }

    method SetPath(path: Option<string>)
      modifies this`path
      ensures this.path == path
    {
      this.path := path;
    }

    method SetCreate(create: bool)
      modifies this`create
      ensures this.create == create
    {
      this.create := create;
    }

    method SetHttpOnly(httpOnly: bool)
      modifies this`httpOnly
      ensures this.httpOnly == httpOnly
    {
      this.httpOnly := httpOnly;
    }

    method SetExpireDate(expireDate: Option<string>)
      modifies this`expireDate
      ensures this.expireDate == expireDate
    {
      this.expireDate := expireDate;
    }

    /** `toString()`: the `Set-Cookie` text of this cookie; the domain is not written. */
    function ToString(): string
      reads this
    {
      var cookieStr :=
        match expireDate
        case None => Text(name) + "=" + Text(value) + ";" + "Path=" + Text(path)
        case Some(date) => Text(name) + "=" + Text(value) + ";" + "Path=" + Text(path) + ";Expires=" + date;
      if httpOnly then cookieStr + ";HttpOnly" else cookieStr
    }
  }

  // ---------------------------------------------------------------------------
  // Serialisation
  // ---------------------------------------------------------------------------

  /** Without an expiry date the text is name, value and path, then the HttpOnly flag if set. */
  lemma {:induction false} ToStringWithoutExpiry(c: Cookie)
    requires c.expireDate == None
    ensures c.ToString() == Text(c.name) + "=" + Text(c.value) + ";Path=" + Text(c.path)
                            + (if c.httpOnly then ";HttpOnly" else "")
  {
  }

  /** An expiry date goes between the path and the HttpOnly flag. */
  lemma {:induction false} ToStringWithExpiry(c: Cookie, date: string)
    requires c.expireDate == Some(date)
    ensures c.ToString() == Text(c.name) + "=" + Text(c.value) + ";Path=" + Text(c.path)
                            + ";Expires=" + date + (if c.httpOnly then ";HttpOnly" else "")
  {
  }

  /** Until `SetPath` is called the text carries `;Path=/` right after name and value. */
  lemma {:induction false} DefaultPathWritten(c: Cookie)
    requires c.path == Some("/")
    ensures var at := |Text(c.name)| + 1 + |Text(c.value)|;
            at + 7 <= |c.ToString()| && c.ToString()[at..at + 7] == ";Path=/"
  {
  }

  // ---------------------------------------------------------------------------
  // Parsing: saxToCookie
  // ---------------------------------------------------------------------------

  /** The name and value a parsed cookie receives. */
  datatype NameValue = NameValue(name: string, value: string)

  /**
    What one `;`-separated segment contributes: nothing when its trimmed text
    splits on `=` to an empty array, otherwise a cookie named by the first
    piece whose value is the rest of the text from its first `=` on, or ""
    when there is no second piece.
   */
  function SegmentCookie(segment: string): Option<NameValue>
  {
    SegmentOfTrimmed(Trim(segment))
  }

  /**
    The shape of what a segment yields: no cookie exactly when its trimmed
    text is non-empty and all `=`; a name free of `=`; a non-empty value that
    starts with `=` and that, appended to the name, gives the trimmed text
    back; an empty value only when the trimmed text is the name followed by
    nothing but `=`.
   */
  lemma {:induction false} SegmentCookieShape(segment: string)
    ensures SegmentCookie(segment).None? <==> |Trim(segment)| > 0 && AllChar(Trim(segment), '=')
    ensures SegmentCookie(segment).Some? ==> NoChar(SegmentCookie(segment).value.name, '=')
    ensures SegmentCookie(segment).Some? && SegmentCookie(segment).value.value != "" ==>
              SegmentCookie(segment).value.value[0] == '='
              && SegmentCookie(segment).value.name + SegmentCookie(segment).value.value == Trim(segment)
    ensures SegmentCookie(segment).Some? && SegmentCookie(segment).value.value == "" ==>
              var name := SegmentCookie(segment).value.name;
              |name| <= |Trim(segment)| && name == Trim(segment)[..|name|]
              && forall k :: |name| <= k < |Trim(segment)| ==> Trim(segment)[k] == '='
  {
    SegmentNoCookie(Trim(segment));
    SegmentNameValue(Trim(segment));
    SegmentBareName(Trim(segment));
  }

  /** The three cases of `SegmentCookie`, on the trimmed text. */
  function SegmentOfTrimmed(kvStr: string): Option<NameValue>
  {
    var kv := Split(kvStr, '=');
    if |kv| == 0 then None
    else if |kv| > 1 then Some(NameValue(kv[0], kvStr[IndexOf(kvStr, '=')..]))
    else Some(NameValue(kv[0], ""))
  }

  lemma {:induction false} SegmentNoCookie(kvStr: string)
    ensures SegmentOfTrimmed(kvStr).None? <==> |kvStr| > 0 && AllChar(kvStr, '=')
  {
    assert SegmentOfTrimmed(kvStr).None? <==> Split(kvStr, '=') == [];
    SplitEmpty(kvStr, '=');
  }

  lemma {:induction false} SegmentNameValue(kvStr: string)
    ensures SegmentOfTrimmed(kvStr).Some? ==> NoChar(SegmentOfTrimmed(kvStr).value.name, '=')
    ensures SegmentOfTrimmed(kvStr).Some? && SegmentOfTrimmed(kvStr).value.value != "" ==>
              SegmentOfTrimmed(kvStr).value.value[0] == '='
              && SegmentOfTrimmed(kvStr).value.name + SegmentOfTrimmed(kvStr).value.value == kvStr
  {
    var kv := Split(kvStr, '=');
    SplitKeepsPrefix(kvStr, '=');
    if |kv| > 1 {
      SplitFirst(kvStr, '=');
      var i := IndexOf(kvStr, '=');
      assert kvStr == kvStr[..i] + kvStr[i..];
    }
  }

  lemma {:induction false} SegmentBareName(kvStr: string)
    ensures SegmentOfTrimmed(kvStr).Some? && SegmentOfTrimmed(kvStr).value.value == "" ==>
              var name := SegmentOfTrimmed(kvStr).value.name;
              |name| <= |kvStr| && name == kvStr[..|name|]
              && forall k :: |name| <= k < |kvStr| ==> kvStr[k] == '='
  {
    var kv := Split(kvStr, '=');
    if |kv| == 1 {
      assert SegmentOfTrimmed(kvStr) == Some(NameValue(kv[0], ""));
      SingleSplitShape(kvStr);
    } else if |kv| > 1 {
      var i := IndexOf(kvStr, '=');
      assert SegmentOfTrimmed(kvStr).value.value == kvStr[i..];
      assert |kvStr[i..]| > 0;
    }
  }

  /** A text splitting on `=` to one element is that element followed by `=` only. */
  lemma {:induction false} SingleSplitShape(kvStr: string)
    requires |Split(kvStr, '=')| == 1
    ensures var name := Split(kvStr, '=')[0];
      |name| <= |kvStr| && name == kvStr[..|name|] && forall k :: |name| <= k < |kvStr| ==> kvStr[k] == '='
  {
    var i := IndexOf(kvStr, '=');
    if i >= 0 {
      assert Split(kvStr, '=')[0] == kvStr[..i] by {
        SplitFirst(kvStr, '=');
      }
      assert forall k :: i < k < |kvStr| ==> kvStr[k] == '=' by {
        SplitMoreThanOne(kvStr, '=');
      }
    }
  }

  /** None contributes nothing, Some one element. */
  function Contribution<T>(o: Option<T>): seq<T>
  {
    match o
    case None => []
    case Some(c) => [c]
  }

  /** The values present in a list of optional values, in list order. */
  function Present<T>(xs: seq<Option<T>>): seq<T>
  {
    if |xs| == 0 then []
    else Present(xs[..|xs| - 1]) + Contribution(xs[|xs| - 1])
  }

  /** One step of the definition, for a list that is not a literal. */
  lemma {:induction false} PresentLast<T>(xs: seq<Option<T>>)
    requires |xs| > 0
    ensures Present(xs) == Present(xs[..|xs| - 1]) + Contribution(xs[|xs| - 1])
  {
  }

  /** At most one value per element. */
  lemma {:induction false} PresentLength<T>(xs: seq<Option<T>>)
    ensures |Present(xs)| <= |xs|
  {
    if |xs| > 0 {
      PresentLength(xs[..|xs| - 1]);
    }
  }

  lemma {:induction false} PresentAppend<T>(a: seq<Option<T>>, b: seq<Option<T>>)
    ensures Present(a + b) == Present(a) + Present(b)
    decreases |b|
  {
    if |b| > 0 {
      var b' := b[..|b| - 1];
      assert (a + b)[..|a + b| - 1] == a + b';
      assert (a + b)[|a + b| - 1] == b[|b| - 1];
      PresentAppend(a, b');
      PresentLast(a + b);
      PresentLast(b);
    } else {
      assert a + b == a;
    }
  }

  /** Element `i` contributes at most one value, between those before it and those after it. */
  lemma {:induction false} PresentAt<T>(xs: seq<Option<T>>, i: nat)
    requires i < |xs|
    ensures Present(xs) == Present(xs[..i]) + Contribution(xs[i]) + Present(xs[i + 1..])
  {
    var left := xs[..i + 1];
    assert xs == left + xs[i + 1..];
    PresentAppend(left, xs[i + 1..]);
    PresentLast(left);
    assert left[..|left| - 1] == xs[..i];
    assert left[|left| - 1] == xs[i];
  }

  /** The definition read forwards: one more element adds its contribution at the end. */
  lemma {:induction false} PresentExtend<T>(xs: seq<Option<T>>, i: nat)
    requires i < |xs|
    ensures Present(xs[..i + 1]) == Present(xs[..i]) + Contribution(xs[i])
  {
    PresentLast(xs[..i + 1]);
    assert xs[..i + 1][..i] == xs[..i];
  }

  /** `f` applied to each element, position by position. */
  function MapSeq<A, B>(f: A -> B, xs: seq<A>): (r: seq<B>)
    ensures |r| == |xs|
  {
    seq(|xs|, k requires 0 <= k < |xs| => f(xs[k]))
  }

  /** Mapping commutes with taking a prefix and with dropping one. */
  lemma {:induction false} MapSeqSlices<A, B>(f: A -> B, xs: seq<A>, i: nat)
    requires i <= |xs|
    ensures MapSeq(f, xs)[..i] == MapSeq(f, xs[..i])
    ensures MapSeq(f, xs)[i..] == MapSeq(f, xs[i..])
  {
    assert forall k :: 0 <= k < i ==> xs[..i][k] == xs[k];
    assert forall k :: 0 <= k < |xs| - i ==> xs[i..][k] == xs[i + k];
  }

  /** What each segment yields, position by position. */
  function SegmentCookies(segments: seq<string>): seq<Option<NameValue>>
  {
    MapSeq(SegmentCookie, segments)
  }

  /** The cookies the segments yield, in segment order (specification of the parsing loop). */
  function CookiesOf(segments: seq<string>): seq<NameValue>
  {
    Present(SegmentCookies(segments))
  }

  /**
    Order and multiplicity: segment `i` contributes at most one cookie, placed
    after those of the segments before it and before those of the segments after it.
   */
  lemma {:induction false} CookiesOfSegment(segments: seq<string>, i: nat)
    requires i < |segments|
    ensures CookiesOf(segments) ==
      CookiesOf(segments[..i]) + Contribution(SegmentCookie(segments[i])) + CookiesOf(segments[i + 1..])
  {
    PresentAt(MapSeq(SegmentCookie, segments), i);
    MapSeqSlices(SegmentCookie, segments, i);
    MapSeqSlices(SegmentCookie, segments, i + 1);
  }

  /** `saxToCookie(cookieStr)`, as the name/value pairs it produces. */
  function ParseCookieHeader(cookieStr: string): seq<NameValue>
  {
    CookiesOf(Split(cookieStr, ';'))
  }

  /** The state of a cookie's fields. */
  datatype CookieFields = CookieFields(
    name: Option<string>, value: Option<string>, domain: Option<string>, path: Option<string>,
    expireDate: Option<string>, create: bool, httpOnly: bool)

  function Fields(c: Cookie): CookieFields
    reads c
  {
    CookieFields(c.name, c.value, c.domain, c.path, c.expireDate, c.create, c.httpOnly)
  }

  /** A parsed cookie: the given name and value, every other field at its default. */
  function Parsed(nv: NameValue): CookieFields
  {
    CookieFields(Some(nv.name), Some(nv.value), None, Some("/"), None, false, false)
  }

  /** A fresh cookie whose name and value are then set, the rest at its defaults. */
  method NewCookie(name: string, value: string) returns (c: Cookie)
    ensures fresh(c) && Fields(c) == Parsed(NameValue(name, value))
  {
    c := new Cookie();
    c.SetName(Some(name));
    c.SetValue(Some(value));
  }

  /**
    The parsing half of the `saxToCookie` loop body: trim the segment, split it
    on `=`, and take the name and the value the code reads off the pieces.
   */
  method ParseSegment(segment: string) returns (yielded: Option<NameValue>)
    ensures yielded == SegmentCookie(segment)
  {
    var kvStr := Trim(segment);
    var kv := Split(kvStr, '=');
    assert SegmentCookie(segment) == SegmentOfTrimmed(kvStr);
    if |kv| > 0 {
      var name := kv[0];
      var value := if |kv| > 1 then kvStr[IndexOf(kvStr, '=')..] else "";
      yielded := Some(NameValue(name, value));
    } else {
      yielded := None;
    }
  }

  /**
    `saxToCookie`: one fresh cookie per segment that does not split to an
    empty array, named and valued as `SegmentCookie` says, with every other
    field at its default.
   */
  method SaxToCookie(cookieStr: string) returns (cookies: seq<Cookie>)
    ensures |cookies| == |ParseCookieHeader(cookieStr)|
    ensures forall k :: 0 <= k < |cookies| ==> Fields(cookies[k]) == Parsed(ParseCookieHeader(cookieStr)[k])
    ensures forall k :: 0 <= k < |cookies| ==> fresh(cookies[k])
    ensures forall j, k :: 0 <= j < k < |cookies| ==> cookies[j] != cookies[k]
  {
    var kvArr := Split(cookieStr, ';');
    cookies := SegmentsToCookies(kvArr);
  }

  /** One iteration of the `saxToCookie` loop adds what segment `i` yields. */
  lemma {:induction false} SegmentsStep(segments: seq<string>, i: nat)
    requires i < |segments|
    ensures CookiesOf(segments[..i + 1]) == CookiesOf(segments[..i]) + Contribution(SegmentCookie(segments[i]))
  {
    var opts := SegmentCookies(segments);
    PresentExtend(opts, i);
    MapSeqSlices(SegmentCookie, segments, i);
    MapSeqSlices(SegmentCookie, segments, i + 1);
  }

  /**
    `cookies[k]` carries the fields `parsed[k]` gives it, position by position,
    and no object occurs twice (stated one position at a time, so that it
    unfolds only as far as a proof asks).
   */
  predicate Carries(cookies: seq<Cookie>, parsed: seq<NameValue>)
    reads cookies
    decreases |cookies|
  {
    |cookies| == |parsed| &&
    (|cookies| > 0 ==>
      var n := |cookies| - 1;
      Carries(cookies[..n], parsed[..n]) &&
      Fields(cookies[n]) == Parsed(parsed[n]) &&
      forall k :: 0 <= k < n ==> cookies[k] != cookies[n])
  }

  /** `Carries` position by position. */
  lemma {:induction false} CarriesAt(cookies: seq<Cookie>, parsed: seq<NameValue>)
    requires Carries(cookies, parsed)
    ensures |cookies| == |parsed|
    ensures forall k :: 0 <= k < |cookies| ==> Fields(cookies[k]) == Parsed(parsed[k])
    ensures forall j, k :: 0 <= j < k < |cookies| ==> cookies[j] != cookies[k]
    decreases |cookies|
  {
    if |cookies| > 0 {
      var n := |cookies| - 1;
      CarriesAt(cookies[..n], parsed[..n]);
      assert forall k :: 0 <= k < n ==> cookies[..n][k] == cookies[k] && parsed[..n][k] == parsed[k];
    }
  }

  /**
    The building half of the `saxToCookie` loop body: when the segment yielded
    a name and value, a fresh cookie carrying them goes at the end of the list;
    the cookies already built are left as they are.
   */
  method AppendCookie(yielded: Option<NameValue>, cookies: seq<Cookie>, ghost parsed: seq<NameValue>)
    returns (next: seq<Cookie>)
    requires Carries(cookies, parsed)
    ensures Carries(next, parsed + Contribution(yielded))
    ensures |cookies| <= |next|
    ensures forall k :: 0 <= k < |cookies| ==> next[k] == cookies[k]
    ensures forall k :: |cookies| <= k < |next| ==> fresh(next[k])
  {
    if yielded.Some? {
      var cookie := NewCookie(yielded.value.name, yielded.value.value);
      assert Carries(cookies, parsed);
      next := cookies + [cookie];
      assert next[..|cookies|] == cookies;
      assert (parsed + [yielded.value])[..|parsed|] == parsed;
    } else {
      next := cookies;
      assert parsed + Contribution(yielded) == parsed;
    }
  }

  /** The loop of `saxToCookie` over the `;`-separated segments. */
  method SegmentsToCookies(kvArr: seq<string>) returns (cookies: seq<Cookie>)
    ensures |cookies| == |CookiesOf(kvArr)|
    ensures forall k :: 0 <= k < |cookies| ==> Fields(cookies[k]) == Parsed(CookiesOf(kvArr)[k])
    ensures forall k :: 0 <= k < |cookies| ==> fresh(cookies[k])
    ensures forall j, k :: 0 <= j < k < |cookies| ==> cookies[j] != cookies[k]
  {
    cookies := [];
    var i := 0;
    while i < |kvArr|
      invariant 0 <= i <= |kvArr|
      invariant Carries(cookies, CookiesOf(kvArr[..i]))
      invariant forall k :: 0 <= k < |cookies| ==> fresh(cookies[k])
    {
      var yielded := ParseSegment(kvArr[i]);
      cookies := AppendCookie(yielded, cookies, CookiesOf(kvArr[..i]));
      SegmentsStep(kvArr, i);
      i := i + 1;
    }
    assert kvArr[..i] == kvArr;
    CarriesAt(cookies, CookiesOf(kvArr));
  }

  /**
    Serialising a cookie and parsing the text back: the first cookie has the
    same name, and its value is the original value with a leading `=`.
   */
  lemma {:induction false} SerialisedFirstCookie(c: Cookie, n: string, v: string, k: nat)
    requires c.name == Some(n) && c.value == Some(v)
    requires (n == [] || n[0] > ' ') && NoChar(n, ';') && NoChar(n, '=')
    requires NoChar(v, ';') && v != [] && v[|v| - 1] > ' '
    requires k < |v| && v[k] != '='
    ensures |ParseCookieHeader(c.ToString())| > 0
    ensures ParseCookieHeader(c.ToString())[0] == NameValue(n, "=" + v)
  {
    var s := c.ToString();
    var first := n + "=" + v;
    var rest := s[|first| + 1..];
    assert s == first + [';'] + rest;
    assert NoChar(first, ';') by {
      assert forall k :: 0 <= k < |first| ==> first[k] == if k < |n| then n[k] else if k == |n| then '=' else v[k - |n| - 1];
    }
    SplitFirstOf(first, ';', rest);
    var segs := Split(s, ';');
    CookiesOfSegment(segs, 0);
    assert segs[..0] == [];
    SegmentOfPair(n, v, k);
  }

  /** A segment `n=v` with no blank at either end yields the cookie `n` with value `=v`. */
  lemma {:induction false} SegmentOfPair(n: string, v: string, k: nat)
    requires (n == [] || n[0] > ' ') && NoChar(n, '=')
    requires v != [] && v[|v| - 1] > ' '
    requires k < |v| && v[k] != '='
    ensures SegmentCookie(n + "=" + v) == Some(NameValue(n, "=" + v))
  {
    var s := n + ['='] + v;
    assert s[0] == if n == [] then '=' else n[0];
    assert s[|s| - 1] == v[|v| - 1];
    TrimUnchanged(s);
    PairOfTrimmed(n, v, k);
  }

  lemma {:induction false} PairOfTrimmed(n: string, v: string, k: nat)
    requires NoChar(n, '=') && k < |v| && v[k] != '='
    ensures SegmentOfTrimmed(n + ['='] + v) == Some(NameValue(n, ['='] + v))
  {
    var s := n + ['='] + v;
    var kv := Split(s, '=');
    assert IndexOf(s, '=') == |n| by {
      IndexOfAfter(n, '=', v);
    }
    assert |kv| > 1 by {
      assert s[|n| + 1 + k] == v[k];
      SplitTwoPieces(s, '=', |n| + 1 + k);
    }
    assert kv[0] == n by {
      SplitFirst(s, '=');
      assert s[..|n|] == n;
    }
    assert s[|n|..] == ['='] + v;
  }

  // ---------------------------------------------------------------------------
  // Parsing: getJSessionId
  // ---------------------------------------------------------------------------

  /**
    The outcome of `getJSessionId`: the session id (which, like a parsed
    cookie value, keeps its leading `=`), null, or the
    ArrayIndexOutOfBoundsException that `kv[0]` raises on a segment splitting
    to an empty array.
   */
  datatype SessionLookup = SessionId(id: string) | NoSessionId | IndexOutOfBounds

  /** What one loop iteration of `getJSessionId` decides for a segment. */
  function SegmentSession(segment: string): SessionLookup
  {
    SessionOfTrimmed(Trim(segment))
  }

  /** The three cases of `SegmentSession`, on the trimmed text. */
  function SessionOfTrimmed(kvStr: string): SessionLookup
  {
    var kv := Split(kvStr, '=');
    if |kv| == 0 then IndexOutOfBounds
    else if JSESSIONID == kv[0] && |kv| > 1 then SessionId(kvStr[IndexOf(kvStr, '=')..])
    else NoSessionId
  }

  /**
    A segment makes the lookup fail exactly when it yields no cookie, and ends
    it with an id exactly when it yields a cookie named JSESSIONID with a
    non-empty value, the id being that value.
   */
  lemma {:induction false} SegmentSessionAgrees(segment: string)
    ensures SegmentSession(segment).IndexOutOfBounds? <==> SegmentCookie(segment).None?
    ensures SegmentSession(segment).SessionId? <==>
              SegmentCookie(segment).Some? && SegmentCookie(segment).value.name == JSESSIONID
              && SegmentCookie(segment).value.value != ""
    ensures SegmentSession(segment).SessionId? ==>
              SegmentSession(segment).id == SegmentCookie(segment).value.value
  {
    TrimmedSessionAgrees(Trim(segment));
  }

  lemma {:induction false} TrimmedSessionAgrees(kvStr: string)
    ensures SessionOfTrimmed(kvStr).IndexOutOfBounds? <==> SegmentOfTrimmed(kvStr).None?
    ensures SessionOfTrimmed(kvStr).SessionId? <==>
              SegmentOfTrimmed(kvStr).Some? && SegmentOfTrimmed(kvStr).value.name == JSESSIONID
              && SegmentOfTrimmed(kvStr).value.value != ""
    ensures SessionOfTrimmed(kvStr).SessionId? ==>
              SessionOfTrimmed(kvStr).id == SegmentOfTrimmed(kvStr).value.value
  {
    if |Split(kvStr, '=')| > 1 {
      assert |kvStr[IndexOf(kvStr, '=')..]| > 0;
    }
  }

  /** What each segment decides, position by position. */
  function Decisions(segments: seq<string>): (r: seq<SessionLookup>)
    ensures |r| == |segments|
  {
    seq(|segments|, k requires 0 <= k < |segments| => SegmentSession(segments[k]))
  }

  /** The loop with its early return: the first decision that is not "go on" wins. */
  function FirstDecided(ds: seq<SessionLookup>): SessionLookup
  {
    if |ds| == 0 then NoSessionId
    else if !ds[0].NoSessionId? then ds[0]
    else FirstDecided(ds[1..])
  }

  /** One step of the definition, for a list that is not a literal. */
  lemma {:induction false} FirstDecidedStep(ds: seq<SessionLookup>)
    requires |ds| > 0
    ensures FirstDecided(ds) == if !ds[0].NoSessionId? then ds[0] else FirstDecided(ds[1..])
  {
  }

  /** The first position that decides determines the outcome. */
  lemma {:induction false} FirstDecidedAt(ds: seq<SessionLookup>, i: nat)
    requires i < |ds| && !ds[i].NoSessionId?
    requires forall k :: 0 <= k < i ==> ds[k].NoSessionId?
    ensures FirstDecided(ds) == ds[i]
  {
    FirstDecidedStep(ds);
    if i > 0 {
      assert forall k :: 0 <= k < i - 1 ==> ds[1..][k] == ds[k + 1];
      FirstDecidedAt(ds[1..], i - 1);
    }
  }

  /** Any outcome other than null comes from a position all of whose predecessors said "go on". */
  lemma {:induction false} FirstDecidedIndex(ds: seq<SessionLookup>) returns (i: nat)
    requires !FirstDecided(ds).NoSessionId?
    ensures i < |ds| && FirstDecided(ds) == ds[i]
    ensures forall k :: 0 <= k < i ==> ds[k].NoSessionId?
  {
    FirstDecidedStep(ds);
    if !ds[0].NoSessionId? {
      i := 0;
    } else {
      var j := FirstDecidedIndex(ds[1..]);
      i := j + 1;
      assert forall k :: 1 <= k < i ==> ds[k] == ds[1..][k - 1];
    }
  }

  /** Null comes back exactly when no position decides. */
  lemma {:induction false} FirstDecidedAbsent(ds: seq<SessionLookup>)
    ensures FirstDecided(ds) == NoSessionId <==> forall k :: 0 <= k < |ds| ==> ds[k].NoSessionId?
  {
    if |ds| > 0 {
      FirstDecidedStep(ds);
      FirstDecidedAbsent(ds[1..]);
      assert forall k :: 1 <= k < |ds| ==> ds[k] == ds[1..][k - 1];
    }
  }

  /** `getJSessionId` on the segments of a header. */
  function FindSession(segments: seq<string>): SessionLookup
  {
    FirstDecided(Decisions(segments))
  }

  /** `getJSessionId(cookieStr)`. */
  method GetJSessionId(cookieStr: string) returns (r: SessionLookup)
    ensures r == FindSession(Split(cookieStr, ';'))
  {
    var kvArr := Split(cookieStr, ';');
    ghost var ds := Decisions(kvArr);
    assert FindSession(Split(cookieStr, ';')) == FirstDecided(ds);
    var i := 0;
    while i < |kvArr|
      invariant 0 <= i <= |kvArr|
      invariant FirstDecided(ds) == FirstDecided(ds[i..])
    {
      FirstDecidedStep(ds[i..]);
      assert ds[i..][1..] == ds[i + 1..];
      assert ds[i] == SegmentSession(kvArr[i]);
      var kvStr := Trim(kvArr[i]);
      var kv := Split(kvStr, '=');
      assert ds[i] == SessionOfTrimmed(kvStr);
      if |kv| == 0 {
        assert ds[i] == IndexOutOfBounds;
        return IndexOutOfBounds;
      }
      if JSESSIONID == kv[0] && |kv| > 1 {
        r := SessionId(kvStr[IndexOf(kvStr, '=')..]);
        assert ds[i] == r;
        return;
      }
      assert ds[i] == NoSessionId;
      i := i + 1;
    }
    assert ds[i..] == [];
    return NoSessionId;
  }

  /** The session id found is the value of a cookie named JSESSIONID in the parsed header. */
  lemma {:induction false} SessionIdIsCookieValue(segments: seq<string>, id: string)
    requires FindSession(segments) == SessionId(id)
    ensures NameValue(JSESSIONID, id) in CookiesOf(segments)
  {
    var i := FirstDecidedIndex(Decisions(segments));
    SegmentSessionAgrees(segments[i]);
    CookiesOfSegment(segments, i);
  }

  /** No exception can come from `kv[0]` when every trimmed segment splits to something. */
  lemma {:induction false} NoIndexFault(segments: seq<string>)
    requires forall k :: 0 <= k < |segments| ==> SegmentCookie(segments[k]).Some?
    ensures !FindSession(segments).IndexOutOfBounds?
  {
    if !FindSession(segments).NoSessionId? {
      var i := FirstDecidedIndex(Decisions(segments));
      SegmentSessionAgrees(segments[i]);
    }
  }
}
