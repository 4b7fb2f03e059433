/** The validators of the configuration loader in src/Config.cpp.  The
    configuration is a JSON document; the JSON library is not part of this
    model, so a document is the small `Json` value below, with the members
    of an object in the library's iteration order. */
module Config {
  import opened Utils

  // ---------------------------------------------------------------------
  // Keywords and JSON values

  /** The configuration keywords (`KW_*`).  Their spellings are not part of
      this model: keywords are compared as values, and distinct keywords
      are distinct strings. */
  datatype Keyword = Addr | Port | ServerNames | ErrorPages | Locations | CgiPaths | Root | Alias
                   | Index | Autoindex | MethodsAllowed | PostMaxBody | Redirect | AuthBasic
                   | Code | Url | Realm | UserFile

  /** An object key: one of the keywords, or any other string. */
  datatype Key = Known(kw: Keyword) | Other(name: string)

  datatype Json = Null | Str(s: string) | Number(n: int) | Boolean(b: bool)
                | Array(items: seq<Json>) | Object(members: seq<(Key, Json)>)

  /** The result of a configuration getter; only NONE_OR_INV reads as
      failure where the loader tests `!status`. */
  datatype ConfStatus = NoneOrInv | Default | Set

  /** validKeywords (src/Config.cpp:230-234): every keyword a server block or
      a location may hold. */
  const VALID_KEYWORDS: seq<Keyword> :=
    [Addr, Port, ServerNames, ErrorPages, Locations, CgiPaths, Root, Alias, Index, Autoindex,
     MethodsAllowed, PostMaxBody, Redirect, AuthBasic]
  /** validServerBlockKeywords (src/Config.cpp:236-240): no alias. */
  const SERVER_BLOCK_KEYWORDS: seq<Keyword> :=
    [Addr, Port, ServerNames, ErrorPages, Locations, CgiPaths, Root, Index, Autoindex,
     MethodsAllowed, PostMaxBody, Redirect, AuthBasic]
  /** validLocationKeywords (src/Config.cpp:242-245). */
  const LOCATION_KEYWORDS: seq<Keyword> :=
    [CgiPaths, Root, Alias, Index, Autoindex, ErrorPages, MethodsAllowed, PostMaxBody, Redirect, AuthBasic]
  /** validRedirectKeywords and validAuthBasicKeywords (src/Config.cpp:247-253). */
  const REDIRECT_KEYWORDS: seq<Keyword> := [Code, Url]
  const AUTH_BASIC_KEYWORDS: seq<Keyword> := [Realm, UserFile]

  /** JSON::Object::get: the value stored under `key`, or null when the
      object has no such member. */
  function Get(members: seq<(Key, Json)>, key: Key): (v: Json)
    ensures (forall i :: 0 <= i < |members| ==> members[i].0 != key) ==> v == Null
    ensures v != Null ==> exists i :: 0 <= i < |members| && members[i] == (key, v)
  {
    if members == [] then Null
    else if members[0].0 == key then members[0].1
    else Get(members[1..], key)
  }

  // ---------------------------------------------------------------------
  // Keyword checks

  /** How isValidKeyword decides: the key belongs to the context, or it is a
      known keyword used in the wrong context, or it is not recognised at
      all.  The C++ function returns true for the first only. */
  datatype KeywordCheck = InContext | WrongContext | Unrecognized

  /** isValidKeyword (src/Config.cpp:255-273): first the context list, then
      the global list.  A nested keyword (code, url, realm, user file) is
      not in the global list, so outside its context it is unrecognised. */
  method IsValidKeyword(key: Key, context: seq<Keyword>) returns (r: KeywordCheck)
    ensures r == InContext <==> key.Known? && key.kw in context
    ensures r == WrongContext <==> key.Known? && key.kw !in context && key.kw in VALID_KEYWORDS
  {
    var i := 0;
    while i < |context|
      invariant 0 <= i <= |context|
      invariant forall k :: 0 <= k < i ==> Known(context[k]) != key
    {
      if Known(context[i]) == key {
        return InContext;
      }
      i := i + 1;
    }
    i := 0;
    while i < |VALID_KEYWORDS|
      invariant 0 <= i <= |VALID_KEYWORDS|
      invariant forall k :: 0 <= k < i ==> Known(VALID_KEYWORDS[k]) != key
    {
      if Known(VALID_KEYWORDS[i]) == key {
        return WrongContext;
      }
      i := i + 1;
    }
    return Unrecognized;
  }

  /** isValidKeywords (src/Config.cpp:275-285): every key of the object must
      be a keyword of the context. */
  method IsValidKeywords(members: seq<(Key, Json)>, context: seq<Keyword>) returns (ok: bool)
    ensures ok <==> forall i :: 0 <= i < |members| ==> members[i].0.Known? && members[i].0.kw in context
  {
    var i := 0;
    while i < |members|
      invariant 0 <= i <= |members|
      invariant forall k :: 0 <= k < i ==> members[k].0.Known? && members[k].0.kw in context
    {
      var check := IsValidKeyword(members[i].0, context);
      if check != InContext {
        return false;
      }
      i := i + 1;
    }
    return true;
  }

  /** Alias is a location keyword only, and the nested keywords belong to
      their own objects: at the level of a server block the first is in the
      wrong context and the others are not recognised. */
  lemma ServerBlockContexts()
    ensures Alias !in SERVER_BLOCK_KEYWORDS && Alias in VALID_KEYWORDS
    ensures forall k :: k in REDIRECT_KEYWORDS + AUTH_BASIC_KEYWORDS ==> k !in VALID_KEYWORDS
    ensures forall k :: k in SERVER_BLOCK_KEYWORDS + LOCATION_KEYWORDS ==> k in VALID_KEYWORDS
  {
  }

  // ---------------------------------------------------------------------
  // Sets, ports, exclusions

  /** Every element of `sub` occurs in `all`. */
  predicate Subset<T(==)>(all: seq<T>, sub: seq<T>)
  {
    forall x :: x in sub ==> x in all
  }

  /** isSubset (src/Config.cpp:160-171): 1 when every element of `sub` is
      found in `all`, 0 at the first that is not. */
  method IsSubset<T(==)>(all: seq<T>, sub: seq<T>) returns (r: int)
    ensures r == 0 || r == 1
    ensures r == 1 <==> Subset(all, sub)
  {
    var i := 0;
    while i < |sub|
      invariant 0 <= i <= |sub|
      invariant forall k :: 0 <= k < i ==> sub[k] in all
    {
      if sub[i] !in all {
        return 0;
      }
      i := i + 1;
    }
    return 1;
  }

  /** isValidPort (src/Config.cpp:614-626), with getuid() as `uid`: at most
      65535, and below 1024 only for the superuser.  The range 49152-65535
      only draws a notice. */
  function IsValidPort(port: int, uid: int): (ok: bool)
    ensures ok <==> port <= 65535 && (1024 <= port || uid == 0)
    ensures 49152 <= port <= 65535 ==> ok
  {
    if port > 65535 then false
    else if port > 49151 then true
    else if port < 1024 && uid != 0 then false
    else true
  }

  /** checkMutualExclusions (src/Config.cpp:473-478): 1 unless both keys
      hold a non-null value. */
  function CheckMutualExclusions(members: seq<(Key, Json)>, key1: Key, key2: Key): (r: int)
    ensures r == 0 || r == 1
    ensures r == 0 ==> (exists i :: 0 <= i < |members| && members[i].0 == key1 && members[i].1 != Null)
                       && (exists j :: 0 <= j < |members| && members[j].0 == key2 && members[j].1 != Null)
  {
    if Get(members, key1).Null? || Get(members, key2).Null? then 1 else 0
  }

  /** An object that holds both alias and root is refused, whatever order
      they come in; one without either is not. */
  lemma AliasOrRoot(members: seq<(Key, Json)>)
    requires forall i :: 0 <= i < |members| ==> members[i].0 != Known(Alias)
    ensures CheckMutualExclusions(members, Known(Alias), Known(Root)) == 1
    ensures CheckMutualExclusions(members, Known(Root), Known(Alias)) == 1
  {
  }

  /** An object holding both keys with non-null values, at their first
      occurrences, is refused. */
  lemma BothKeysRefused(members: seq<(Key, Json)>, key1: Key, key2: Key, i: nat, j: nat)
    requires i < |members| && members[i].0 == key1 && members[i].1 != Null
    requires j < |members| && members[j].0 == key2 && members[j].1 != Null
    requires forall k :: 0 <= k < i ==> members[k].0 != key1
    requires forall k :: 0 <= k < j ==> members[k].0 != key2
    ensures CheckMutualExclusions(members, key1, key2) == 0
  {
    GetFirst(members, key1, i);
    GetFirst(members, key2, j);
  }

  /** Get finds the first member with the key. */
  lemma {:induction false} GetFirst(members: seq<(Key, Json)>, key: Key, i: nat)
    requires i < |members| && members[i].0 == key
    requires forall k :: 0 <= k < i ==> members[k].0 != key
    ensures Get(members, key) == members[i].1
  {
    if i > 0 {
      assert members[0].0 != key;
      GetFirst(members[1..], key, i - 1);
    }
  }

  // ---------------------------------------------------------------------
  // Redirects

  datatype RedirectRule = RedirectRule(isSet: bool, code: int, uri: string)

  /** isValidRedirect (src/Config.cpp:415-428) as written: its code test
      `code < 300 && code > 308` holds for no code, so only an empty URL is
      refused. */
  function IsValidRedirectAsWritten(r: RedirectRule): (ok: int)
    ensures ok == 0 || ok == 1
    ensures ok == 0 <==> r.isSet && r.uri == []
  {
    if r.isSet then
      if r.code < 300 && r.code > 308 then 0
      else if r.uri == [] then 0
      else 1
    else 1
  }

  /** A redirect with code 200 passes the check as written. */
  lemma RedirectCodeUncheckedAsWritten()
    ensures IsValidRedirectAsWritten(RedirectRule(true, 200, "/next")) == 1
  {
  }

  /** isValidRedirect with the evidently intended test `code < 300 || code >
      308`: a set redirect needs a 3xx redirection code and a URL. */
  function IsValidRedirect(r: RedirectRule): (ok: int)
    ensures ok == 0 || ok == 1
    ensures ok == 1 <==> !r.isSet || (300 <= r.code <= 308 && r.uri != [])
  {
    if r.isSet then
      if r.code < 300 || r.code > 308 then 0
      else if r.uri == [] then 0
      else 1
    else 1
  }

  /** The intended check refuses what the written one lets through, and
      agrees with it on every redirect with a 3xx code. */
  lemma RedirectChecksCompared(r: RedirectRule)
    ensures IsValidRedirect(r) == 1 ==> IsValidRedirectAsWritten(r) == 1
    ensures 300 <= r.code <= 308 ==> IsValidRedirect(r) == IsValidRedirectAsWritten(r)
    ensures IsValidRedirect(RedirectRule(true, 200, "/next")) == 0
  {
  }

  // ---------------------------------------------------------------------
  // Arrays and allowed methods

  /** The strings of `items` before the first element that is not a string. */
  function StringsBefore(items: seq<Json>): (r: seq<string>)
    ensures |r| <= |items|
    ensures forall k :: 0 <= k < |r| ==> items[k] == Str(r[k])
    ensures |r| < |items| ==> !items[|r|].Str?
  {
    if items == [] || !items[0].Str? then [] else [items[0].s] + StringsBefore(items[1..])
  }

  predicate AllStrings(items: seq<Json>)
  {
    forall k :: 0 <= k < |items| ==> items[k].Str?
  }

  /** An array of strings is read whole, element by element. */
  lemma {:induction false} StringsOfAllStrings(items: seq<Json>)
    requires AllStrings(items)
    ensures |StringsBefore(items)| == |items|
  {
    if items != [] {
      StringsOfAllStrings(items[1..]);
    }
  }

  /** getArray (src/Config.cpp:173-195): an absent or null member gives the
      default; a member that is not an array fails and leaves `res` alone;
      otherwise `res` is cleared and refilled, and the first element that
      is not a string fails with the strings before it already stored. */
  method GetArray(members: seq<(Key, Json)>, key: Key, res0: seq<string>, def: seq<string>)
    returns (status: ConfStatus, res: seq<string>)
    ensures Get(members, key).Null? ==> status == Default && res == def
    ensures !Get(members, key).Null? && !Get(members, key).Array? ==> status == NoneOrInv && res == res0
    ensures Get(members, key).Array? ==>
              var items := Get(members, key).items;
              && res == StringsBefore(items)
              && (status == Set <==> AllStrings(items))
              && (status == Set || status == NoneOrInv)
  {
    var v := Get(members, key);
    if v.Null? {
      return Default, def;
    }
    if !v.Array? {
      return NoneOrInv, res0;
    }
    res := [];
    var i := 0;
    while i < |v.items|
      invariant 0 <= i <= |v.items| && |res| == i
      invariant forall k :: 0 <= k < i ==> v.items[k] == Str(res[k])
    {
      if !v.items[i].Str? {
        StringsBeforeIs(v.items, res);
        return NoneOrInv, res;
      }
      res := res + [v.items[i].s];
      i := i + 1;
    }
    StringsBeforeIs(v.items, res);
    StringsOfAllStrings(v.items);
    return Set, res;
  }

  /** The no-default getArray (src/Config.cpp:197-215): the same, except
      that an absent or null member fails. */
  method GetArrayRequired(members: seq<(Key, Json)>, key: Key, res0: seq<string>)
    returns (status: ConfStatus, res: seq<string>)
    ensures Get(members, key).Null? ==> status == NoneOrInv && res == res0
    ensures !Get(members, key).Null? && !Get(members, key).Array? ==> status == NoneOrInv && res == res0
    ensures Get(members, key).Array? ==>
              var items := Get(members, key).items;
              && res == StringsBefore(items)
              && (status == Set <==> AllStrings(items))
              && (status == Set || status == NoneOrInv)
  {
    var v := Get(members, key);
    if v.Null? || !v.Array? {
      return NoneOrInv, res0;
    }
    status, res := GetArray(members, key, res0, res0);
  }

  /** Any prefix of strings that stops at the end or at a non-string is
      the one StringsBefore picks out. */
  lemma {:induction false} StringsBeforeIs(items: seq<Json>, r: seq<string>)
    requires |r| <= |items|
    requires forall k :: 0 <= k < |r| ==> items[k] == Str(r[k])
    requires |r| < |items| ==> !items[|r|].Str?
    ensures StringsBefore(items) == r
  {
    if r != [] {
      assert items[0] == Str(r[0]);
      var tail, rest := items[1..], r[1..];
      forall k | 0 <= k < |rest|
        ensures tail[k] == Str(rest[k])
      {
        assert tail[k] == items[k + 1] && rest[k] == r[k + 1];
      }
      StringsBeforeIs(tail, rest);
      assert r == [r[0]] + rest;
    }
  }

  /** getDefaultAllowedMethods (src/Config.cpp:219-228) as written: the
      vector is created with nine elements, which are empty strings, and
      the valid methods are pushed after them. */
  method GetDefaultAllowedMethodsAsWritten(validMethods: seq<string>) returns (allowed: seq<string>)
    ensures |allowed| == 9 + |validMethods|
    ensures forall k :: 0 <= k < 9 ==> allowed[k] == ""
    ensures allowed[9..] == validMethods
  {
    allowed := seq(9, _ => "");
    var i := 0;
    while i < |validMethods|
      invariant 0 <= i <= |validMethods|
      invariant |allowed| == 9 + i
      invariant forall k :: 0 <= k < 9 ==> allowed[k] == ""
      invariant allowed[9..] == validMethods[..i]
    {
      allowed := allowed + [validMethods[i]];
      i := i + 1;
    }
  }

  /** With the default list as written, the empty string passes as an
      allowed method, and so does a list made only of it. */
  lemma EmptyMethodAllowedAsWritten(validMethods: seq<string>, allowed: seq<string>)
    requires |allowed| == 9 + |validMethods| && allowed[0] == ""
    ensures Subset(allowed, [""])
  {
    assert "" == allowed[0];
  }

  /** getDefaultAllowedMethods with the evidently intended reservation
      instead of sizing: exactly the valid methods, in order. */
  method GetDefaultAllowedMethods(validMethods: seq<string>) returns (allowed: seq<string>)
    ensures allowed == validMethods
  {
    allowed := [];
    var i := 0;
    while i < |validMethods|
      invariant 0 <= i <= |validMethods|
      invariant allowed == validMethods[..i]
    {
      allowed := allowed + [validMethods[i]];
      i := i + 1;
    }
    assert validMethods[..i] == validMethods;
  }

  /** Against the intended default, a list of allowed methods passes the
      subset check iff each of its entries is a valid method; the empty
      string is refused unless it is one. */
  lemma AllowedMethodsChecked(validMethods: seq<string>, sub: seq<string>)
    ensures Subset(validMethods, sub) <==> forall k :: 0 <= k < |sub| ==> sub[k] in validMethods
    ensures "" !in validMethods ==> !Subset(validMethods, [""])
  {
    if Subset(validMethods, sub) {
      forall k | 0 <= k < |sub|
        ensures sub[k] in validMethods
      {
        assert sub[k] in sub;
      }
    }
    if "" !in validMethods {
      assert "" in [""];
    }
  }

  // ---------------------------------------------------------------------
  // Error pages

  /** What strtod and isUInteger make of an error-page key: a non-negative
      integer, or anything else.  The floating-point conversion itself is
      not part of this model. */
  datatype CodeValue = NotUInt | UInt(n: nat)

  /** An error-page member parseErrorPages accepts: a non-negative integer
      code in 300..599 and a string value. */
  predicate PageOk(m: (Key, Json), conv: Key -> CodeValue)
  {
    conv(m.0).UInt? && 300 <= conv(m.0).n <= 599 && m.1.Str?
  }

  predicate PagesOk(ms: seq<(Key, Json)>, conv: Key -> CodeValue)
  {
    forall k :: 0 <= k < |ms| ==> PageOk(ms[k], conv)
  }

  /** Index of the first member that is not a valid page, or |ms|. */
  function FirstBadPage(ms: seq<(Key, Json)>, conv: Key -> CodeValue): (j: nat)
    ensures j <= |ms|
    ensures forall k :: 0 <= k < j ==> PageOk(ms[k], conv)
    ensures j < |ms| ==> !PageOk(ms[j], conv)
  {
    if ms == [] || !PageOk(ms[0], conv) then 0
    else
      var j := 1 + FirstBadPage(ms[1..], conv);
      assert forall k :: 1 <= k < j ==> ms[k] == ms[1..][k - 1];
      j
  }

  /** The pages the members define, the first member of each code winning
      (std::map::insert keeps the existing entry). */
  function Pages(ms: seq<(Key, Json)>, conv: Key -> CodeValue): (r: map<int, string>)
    requires forall k :: 0 <= k < |ms| ==> PageOk(ms[k], conv)
    ensures forall c :: c in r ==> 300 <= c <= 599
  {
    if ms == [] then map[]
    else
      var m := Pages(ms[..|ms| - 1], conv);
      var last := ms[|ms| - 1];
      assert PageOk(last, conv);
      if conv(last.0).n in m then m else m[conv(last.0).n := last.1.s]
  }

  /** parseErrorPages (src/Config.cpp:343-373): the map is cleared first; an
      absent member gives the empty default; a member that is not an
      object, a code that is not a non-negative integer or lies outside
      300..599, or a value that is not a string fails. */
  method ParseErrorPages(members: seq<(Key, Json)>, conv: Key -> CodeValue)
    returns (status: ConfStatus, res: map<int, string>)
    ensures forall c :: c in res ==> 300 <= c <= 599
    ensures Get(members, Known(ErrorPages)).Null? ==> status == Default && res == map[]
    ensures !Get(members, Known(ErrorPages)).Null? && !Get(members, Known(ErrorPages)).Object? ==>
              status == NoneOrInv && res == map[]
    ensures Get(members, Known(ErrorPages)).Object? ==>
              var pages := Get(members, Known(ErrorPages)).members;
              && (status == Set <==> PagesOk(pages, conv))
              && (status == Set ==> res == Pages(pages, conv))
              && (status == NoneOrInv ==> res == Pages(pages[..FirstBadPage(pages, conv)], conv))
              && (status == Set || status == NoneOrInv)
  {
    res := map[];
    var v := Get(members, Known(ErrorPages));
    if v.Null? {
      return Default, map[];
    }
    if !v.Object? {
      return NoneOrInv, res;
    }
    var pages := v.members;
    assert pages == Get(members, Known(ErrorPages)).members;
    var i := 0;
    while i < |pages|
      invariant 0 <= i <= |pages|
      invariant forall k :: 0 <= k < i ==> PageOk(pages[k], conv)
      invariant res == Pages(pages[..i], conv)
    {
      var code := conv(pages[i].0);
      if code.NotUInt? {
        assert !PageOk(pages[i], conv);
        return NoneOrInv, res;
      } else if code.n < 300 || code.n > 599 {
        assert !PageOk(pages[i], conv);
        return NoneOrInv, res;
      }
      if !pages[i].1.Str? {
        assert !PageOk(pages[i], conv);
        return NoneOrInv, res;
      }
      assert pages[..i + 1][..i] == pages[..i];
      if code.n !in res {
        res := res[code.n := pages[i].1.s];
      }
      i := i + 1;
    }
    assert pages[..i] == pages;
    return Set, res;
  }

  /** The page stored for a code is the value of the first member with that
      code. */
  lemma {:induction false} FirstPageWins(ms: seq<(Key, Json)>, conv: Key -> CodeValue, i: nat)
    requires forall k :: 0 <= k < |ms| ==> PageOk(ms[k], conv)
    requires i < |ms|
    requires forall k :: 0 <= k < i ==> conv(ms[k].0) != conv(ms[i].0)
    ensures PageOk(ms[i], conv) && conv(ms[i].0).n in Pages(ms, conv)
    ensures Pages(ms, conv)[conv(ms[i].0).n] == ms[i].1.s
    decreases |ms|
  {
    var c := conv(ms[i].0).n;
    var init := ms[..|ms| - 1];
    if i == |ms| - 1 {
      NoEarlierCode(init, conv, c);
    } else {
      assert forall k :: 0 <= k < i ==> init[k] == ms[k];
      FirstPageWins(init, conv, i);
    }
  }

  /** A code no member holds is not in the pages. */
  lemma {:induction false} NoEarlierCode(ms: seq<(Key, Json)>, conv: Key -> CodeValue, c: nat)
    requires forall k :: 0 <= k < |ms| ==> PageOk(ms[k], conv)
    requires forall k :: 0 <= k < |ms| ==> conv(ms[k].0) != UInt(c)
    ensures c !in Pages(ms, conv)
    decreases |ms|
  {
    if ms != [] {
      NoEarlierCode(ms[..|ms| - 1], conv, c);
    }
  }

  // ---------------------------------------------------------------------
  // The root of a location

  /** The root parseLocation reads: the configured string, or the inherited
      default when the member is absent; None when it is not a string. */
  function ConfiguredRoot(members: seq<(Key, Json)>, defRoot: string): Option<string>
  {
    var v := Get(members, Known(Root));
    if v.Null? then Some(defRoot) else if v.Str? then Some(v.s) else None
  }

  /** The root step of parseLocation (src/Config.cpp:509-522): the root must
      be a string naming an existing directory, and gets a final '/' when
      it lacks one.  The empty path never exists, so the last character is
      always there to test. */
  method ParseRoot(fs: FileSystem, members: seq<(Key, Json)>, defRoot: string) returns (status: ConfStatus, root: string)
    ensures status == Set || status == Default || status == NoneOrInv
    ensures status != NoneOrInv <==>
              ConfiguredRoot(members, defRoot).Some? && IsDirectory(fs, ConfiguredRoot(members, defRoot).value)
    ensures status != NoneOrInv ==>
              var given := ConfiguredRoot(members, defRoot).value;
              && |root| > 0 && root[|root| - 1] == '/'
              && (root == given || root == given + "/")
              && (root == given <==> given[|given| - 1] == '/')
  {
    var v := Get(members, Known(Root));
    if v.Null? {
      status, root := Default, defRoot;
    } else if v.Str? {
      status, root := Set, v.s;
    } else {
      return NoneOrInv, "";
    }
    if !ResourceExists(fs, root) {
      return NoneOrInv, root;
    } else if !IsDirectory(fs, root) {
      return NoneOrInv, root;
    } else if root[|root| - 1] != '/' {
      root := root + "/";
    }
  }
}
