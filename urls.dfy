/**
 * clean_url (openevidence_converter.py:193-220): drop the eight tracking keys
 * from a URL's query string and keep every other parameter.
 *
 * `urlparse` is modelled by its two splits that matter here (the fragment after
 * the first `#`, then the query after the first `?`); the part before the query
 * is carried through unchanged. `parse_qs(..., keep_blank_values=True)` becomes
 * ParseQuery (split on `&`, skip empty pieces, split each piece at its first `=`)
 * followed by GroupParams (one group per key, keys in first-occurrence order,
 * values in order); `urlencode(..., doseq=True)` becomes EncodeQuery.
 */
module Urls {
  import opened Text
  import opened Wrappers

  /** `tracking_params`. */
  const TrackingParams: set<string> :=
    {"utm_source", "utm_medium", "utm_campaign", "utm_term", "utm_content", "url_ver", "rfr_id", "rfr_dat"}

  /** One `key=value` pair of a query string. */
  datatype Param = Param(key: string, value: string)

  /** One entry of the dictionary `parse_qs` returns: a key and its values in order. */
  datatype Group = Group(key: string, values: seq<string>)

  /** The pieces of a URL that clean_url takes apart. */
  datatype UrlParts = UrlParts(base: string, query: string, fragment: string)

  /** The part of `s` before the first `c` (all of `s` when there is none). */
  function Before(s: string, c: char): string {
    match IndexOf(s, c)
    case None => s
    case Some(i) => s[..i]
  }

  /** The part of `s` after the first `c` (empty when there is none). */
  function After(s: string, c: char): string {
    match IndexOf(s, c)
    case None => ""
    case Some(i) => s[i + 1..]
  }

  /** `urlparse`: the fragment follows the first `#`, the query the first `?` before it. */
  function ParseUrl(url: string): UrlParts {
    var rest := Before(url, '#');
    UrlParts(Before(rest, '?'), After(rest, '?'), After(url, '#'))
  }

  lemma BeforeAfterChars(s: string, c: char)
    ensures c !in Before(s, c)
    ensures forall d :: d in Before(s, c) ==> d in s
    ensures forall d :: d in After(s, c) ==> d in s
  {
    match IndexOf(s, c)
    case None =>
    case Some(i) =>
      assert forall d :: d in s[i + 1..] ==> d in s;
      assert forall d :: d in s[..i] ==> d in s;
  }

  /** Neither separator survives in the part before the query, nor `#` in the query. */
  lemma ParseUrlChars(url: string)
    ensures '#' !in ParseUrl(url).base && '?' !in ParseUrl(url).base && '#' !in ParseUrl(url).query
  {
    BeforeAfterChars(url, '#');
    BeforeAfterChars(Before(url, '#'), '?');
  }

  /** `urlunparse`: `?query` only when the query is non-empty, `#fragment` likewise. */
  function Unparse(p: UrlParts): string {
    p.base + (if p.query != "" then "?" + p.query else "") + (if p.fragment != "" then "#" + p.fragment else "")
  }

  /** One query piece: split at the first `=`, a missing `=` giving an empty value. */
  function ParseParam(piece: string): Param {
    match IndexOf(piece, '=')
    case None => Param(piece, "")
    case Some(i) => Param(piece[..i], piece[i + 1..])
  }

  /** `parse_qsl(query, keep_blank_values=True)` without percent-decoding. */
  function ParseQuery(query: string): seq<Param> {
    ParsePieces(Split(query, '&'))
  }

  function ParsePieces(pieces: seq<string>): seq<Param> {
    if |pieces| == 0 then []
    else (if pieces[0] == "" then [] else [ParseParam(pieces[0])]) + ParsePieces(pieces[1..])
  }

  function FindKey(groups: seq<Group>, key: string): (r: Option<nat>)
    ensures r.Some? ==> r.value < |groups| && groups[r.value].key == key
    ensures r.Some? ==> forall i :: 0 <= i < r.value ==> groups[i].key != key
    ensures r.None? ==> forall i :: 0 <= i < |groups| ==> groups[i].key != key
  {
    if |groups| == 0 then None
    else if groups[0].key == key then Some(0)
    else match FindKey(groups[1..], key)
      case None => None
      case Some(i) => Some(i + 1)
  }

  /** Adding one pair to the dictionary: append to the key's list, or add the key at the end. */
  function AddParam(groups: seq<Group>, p: Param): seq<Group> {
    match FindKey(groups, p.key)
    case Some(i) => groups[i := Group(p.key, groups[i].values + [p.value])]
    case None => groups + [Group(p.key, [p.value])]
  }

  /** Adding the pairs one after another, left to right. */
  function AddAll(groups: seq<Group>, params: seq<Param>): seq<Group>
    decreases |params|
  {
    if |params| == 0 then groups else AddAll(AddParam(groups, params[0]), params[1..])
  }

  /** `parse_qs`: the pairs grouped by key, in the order the keys first appear. */
  function GroupParams(params: seq<Param>): seq<Group> {
    AddAll([], params)
  }

  /** The dictionary comprehension that drops the tracking keys. */
  function FilterTracking(groups: seq<Group>): seq<Group> {
    if |groups| == 0 then []
    else (if groups[0].key in TrackingParams then [] else [groups[0]]) + FilterTracking(groups[1..])
  }

  function Expand(g: Group): seq<Param> {
    seq(|g.values|, i requires 0 <= i < |g.values| => Param(g.key, g.values[i]))
  }

  /** The pairs `urlencode(..., doseq=True)` writes: each key once per value. */
  function Flatten(groups: seq<Group>): seq<Param> {
    if |groups| == 0 then [] else Expand(groups[0]) + Flatten(groups[1..])
  }

  function EncodeParam(p: Param): string {
    p.key + "=" + p.value
  }

  function EncodeAll(params: seq<Param>): seq<string> {
    seq(|params|, i requires 0 <= i < |params| => EncodeParam(params[i]))
  }

  /** `urlencode(groups, doseq=True)` without percent-encoding. */
  function EncodeQuery(groups: seq<Group>): string {
    Join(EncodeAll(Flatten(groups)), "&")
  }

  /** clean_url. */
  function CleanUrl(url: string): string {
    var p := ParseUrl(url);
    if p.query == "" then url
    else
      var kept := FilterTracking(GroupParams(ParseQuery(p.query)));
      var newQuery := if kept != [] then EncodeQuery(kept) else "";
      Unparse(UrlParts(p.base, newQuery, p.fragment))
  }

  // ----- Properties -----

  /** The values given for `key`, in order. */
  function ValuesOf(params: seq<Param>, key: string): seq<string> {
    if |params| == 0 then []
    else (if params[0].key == key then [params[0].value] else []) + ValuesOf(params[1..], key)
  }

  ghost predicate DistinctKeys(groups: seq<Group>) {
    forall i, j :: 0 <= i < j < |groups| ==> groups[i].key != groups[j].key
  }

  /** A URL with no query comes back unchanged. */
  lemma NoQueryUnchanged(url: string)
    requires ParseUrl(url).query == ""
    ensures CleanUrl(url) == url
  {
  }

  lemma {:induction false} ValuesOfAppend(a: seq<Param>, b: seq<Param>, key: string)
    ensures ValuesOf(a + b, key) == ValuesOf(a, key) + ValuesOf(b, key)
  {
    if |a| > 0 {
      assert (a + b)[1..] == a[1..] + b;
      ValuesOfAppend(a[1..], b, key);
    } else {
      assert a + b == b;
    }
  }

  lemma {:induction false} ValuesOfExpand(g: Group, key: string)
    ensures ValuesOf(Expand(g), key) == if g.key == key then g.values else []
    decreases |g.values|
  {
    if |g.values| > 0 {
      var g' := Group(g.key, g.values[1..]);
      assert Expand(g)[1..] == Expand(g');
      ValuesOfExpand(g', key);
    }
  }

  /** With distinct keys, the flattened pairs for `key` are exactly that key's list. */
  lemma {:induction false} ValuesOfFlatten(groups: seq<Group>, key: string)
    requires DistinctKeys(groups)
    ensures ValuesOf(Flatten(groups), key) ==
      match FindKey(groups, key) case Some(i) => groups[i].values case None => []
  {
    if |groups| > 0 {
      var tail := groups[1..];
      assert DistinctKeys(tail) by {
        forall i, j | 0 <= i < j < |tail| ensures tail[i].key != tail[j].key {
          assert tail[i] == groups[i + 1] && tail[j] == groups[j + 1];
        }
      }
      assert Flatten(groups) == Expand(groups[0]) + Flatten(tail);
      ValuesOfAppend(Expand(groups[0]), Flatten(tail), key);
      ValuesOfExpand(groups[0], key);
      ValuesOfFlatten(tail, key);
      if groups[0].key == key {
        assert FindKey(tail, key) == None by {
          forall i | 0 <= i < |tail| ensures tail[i].key != key {
            assert tail[i] == groups[i + 1];
          }
        }
        assert FindKey(groups, key) == Some(0);
      } else {
        assert FindKey(groups, key) == match FindKey(tail, key) case None => None case Some(i) => Some(i + 1);
      }
    }
  }

  lemma {:induction false} AddParamValues(groups: seq<Group>, p: Param, key: string)
    requires DistinctKeys(groups)
    ensures DistinctKeys(AddParam(groups, p))
    ensures ValuesOf(Flatten(AddParam(groups, p)), key) ==
      ValuesOf(Flatten(groups), key) + (if p.key == key then [p.value] else [])
  {
    var after := AddParam(groups, p);
    ValuesOfFlatten(groups, key);
    match FindKey(groups, p.key)
    case Some(i) =>
      assert forall j :: 0 <= j < |groups| ==> after[j].key == groups[j].key;
      assert FindKey(after, key) == FindKey(groups, key) by { FindKeySameKeys(groups, after, key); }
      ValuesOfFlatten(after, key);
    case None =>
      assert DistinctKeys(after);
      ValuesOfFlatten(after, key);
      if p.key != key {
        assert FindKey(after, key) == FindKey(groups, key) by { FindKeyExtend(groups, Group(p.key, [p.value]), key); }
      } else {
        assert FindKey(after, key) == Some(|groups|) by { FindKeyExtend(groups, Group(p.key, [p.value]), key); }
      }
  }

  lemma {:induction false} FindKeySameKeys(a: seq<Group>, b: seq<Group>, key: string)
    requires |a| == |b| && forall j :: 0 <= j < |a| ==> a[j].key == b[j].key
    ensures FindKey(a, key) == FindKey(b, key)
  {
    if |a| > 0 {
      FindKeySameKeys(a[1..], b[1..], key);
    }
  }

  lemma {:induction false} FindKeyExtend(a: seq<Group>, g: Group, key: string)
    ensures FindKey(a + [g], key) ==
      match FindKey(a, key) case Some(i) => Some(i) case None => if g.key == key then Some(|a|) else None
  {
    if |a| > 0 {
      assert (a + [g])[1..] == a[1..] + [g];
      FindKeyExtend(a[1..], g, key);
    }
  }

  lemma {:induction false} AddAllValues(groups: seq<Group>, params: seq<Param>, key: string)
    requires DistinctKeys(groups)
    ensures DistinctKeys(AddAll(groups, params))
    ensures ValuesOf(Flatten(AddAll(groups, params)), key) == ValuesOf(Flatten(groups), key) + ValuesOf(params, key)
    decreases |params|
  {
    if |params| > 0 {
      AddParamValues(groups, params[0], key);
      AddAllValues(AddParam(groups, params[0]), params[1..], key);
    }
  }

  /** Grouping loses and reorders no value of any key. */
  lemma GroupParamsValues(params: seq<Param>, key: string)
    ensures DistinctKeys(GroupParams(params))
    ensures ValuesOf(Flatten(GroupParams(params)), key) == ValuesOf(params, key)
  {
    AddAllValues([], params, key);
  }

  lemma {:induction false} FilterTrackingKeeps(groups: seq<Group>, key: string)
    requires DistinctKeys(groups)
    ensures DistinctKeys(FilterTracking(groups))
    ensures ValuesOf(Flatten(FilterTracking(groups)), key) ==
      if key in TrackingParams then [] else ValuesOf(Flatten(groups), key)
  {
    if |groups| > 0 {
      FilterTrackingKeeps(groups[1..], key);
      FilterTrackingSubset(groups[1..]);
      var rest := FilterTracking(groups[1..]);
      ValuesOfAppend(Expand(groups[0]), Flatten(groups[1..]), key);
      ValuesOfExpand(groups[0], key);
      if groups[0].key !in TrackingParams {
        var f := [groups[0]] + rest;
        assert f[1..] == rest;
        assert Flatten(f) == Expand(groups[0]) + Flatten(rest);
        ValuesOfAppend(Expand(groups[0]), Flatten(rest), key);
        forall i, j | 0 <= i < j < |f| ensures f[i].key != f[j].key {
          if i == 0 {
            assert f[j] in groups[1..];
          }
        }
      } else {
        assert FilterTracking(groups) == rest;
      }
    }
  }

  lemma {:induction false} FilterTrackingSubset(groups: seq<Group>)
    ensures forall g :: g in FilterTracking(groups) ==> g in groups && g.key !in TrackingParams
  {
    if |groups| > 0 {
      FilterTrackingSubset(groups[1..]);
    }
  }

  lemma {:induction false} FilterTrackingNone(groups: seq<Group>)
    requires forall i :: 0 <= i < |groups| ==> groups[i].key !in TrackingParams
    ensures FilterTracking(groups) == groups
  {
    if |groups| > 0 {
      FilterTrackingNone(groups[1..]);
    }
  }

  // ----- Re-parsing what clean_url writes -----

  /** The characters a parsed pair never holds; they keep an encoded query re-parseable. */
  predicate ParamChars(p: Param) {
    '&' !in p.key && '=' !in p.key && '#' !in p.key && '&' !in p.value && '#' !in p.value
  }

  predicate GroupOk(g: Group) {
    |g.values| > 0 && forall j :: 0 <= j < |g.values| ==> ParamChars(Param(g.key, g.values[j]))
  }

  /** What `parse_qs` produces from a query: distinct keys, each with at least one value. */
  ghost predicate WellFormed(groups: seq<Group>) {
    DistinctKeys(groups) && forall i :: 0 <= i < |groups| ==> GroupOk(groups[i])
  }

  lemma BeforeAfterAt(a: string, c: char, rest: string)
    requires c !in a
    ensures Before(a + [c] + rest, c) == a && After(a + [c] + rest, c) == rest
  {
    IndexOfAt(a, c, rest);
    assert (a + [c] + rest)[..|a|] == a;
    assert (a + [c] + rest)[|a| + 1..] == rest;
  }

  lemma BeforeAfterNone(s: string, c: char)
    requires c !in s
    ensures Before(s, c) == s && After(s, c) == ""
  {
  }

  /** Writing the parts back and splitting again gives the same parts. */
  lemma ParseUnparse(p: UrlParts)
    requires '#' !in p.base && '?' !in p.base && '#' !in p.query
    ensures ParseUrl(Unparse(p)) == p
  {
    var head := p.base + (if p.query != "" then "?" + p.query else "");
    assert '#' !in head;
    if p.fragment != "" {
      assert Unparse(p) == head + ['#'] + p.fragment;
      BeforeAfterAt(head, '#', p.fragment);
    } else {
      assert Unparse(p) == head;
      BeforeAfterNone(head, '#');
    }
    if p.query != "" {
      assert head == p.base + ['?'] + p.query;
      BeforeAfterAt(p.base, '?', p.query);
    } else {
      assert head == p.base;
      BeforeAfterNone(p.base, '?');
    }
  }

  lemma ParseEncodeParam(p: Param)
    requires '=' !in p.key
    ensures ParseParam(EncodeParam(p)) == p
  {
    var e := EncodeParam(p);
    assert e == p.key + ['='] + p.value;
    IndexOfAt(p.key, '=', p.value);
    assert e[..|p.key|] == p.key && e[|p.key| + 1..] == p.value;
  }

  lemma {:induction false} ParsePiecesEncoded(params: seq<Param>)
    requires forall i :: 0 <= i < |params| ==> ParamChars(params[i])
    ensures ParsePieces(EncodeAll(params)) == params
  {
    if |params| > 0 {
      var e := EncodeAll(params);
      assert e[1..] == EncodeAll(params[1..]);
      assert e[0] != "" by { assert |e[0]| >= 1; }
      ParseEncodeParam(params[0]);
      ParsePiecesEncoded(params[1..]);
    }
  }

  /** `parse_qsl(urlencode(...))`: the encoded pairs read back as the same pairs. */
  lemma QueryRoundTrip(params: seq<Param>)
    requires |params| > 0
    requires forall i :: 0 <= i < |params| ==> ParamChars(params[i])
    ensures ParseQuery(Join(EncodeAll(params), "&")) == params
    ensures '#' !in Join(EncodeAll(params), "&")
    ensures Join(EncodeAll(params), "&") != ""
  {
    var e := EncodeAll(params);
    forall k | 0 <= k < |e| ensures '&' !in e[k] && '#' !in e[k] {
      assert e[k] == params[k].key + ['='] + params[k].value;
    }
    assert "&" == ['&'];
    SplitJoin(e, '&');
    ParsePiecesEncoded(params);
    JoinExcludes(e, "&", '#');
    assert |e[0]| > 0;
  }

  lemma ParseParamChars(piece: string)
    requires '&' !in piece && '#' !in piece
    ensures ParamChars(ParseParam(piece))
  {
    match IndexOf(piece, '=')
    case None =>
    case Some(i) =>
      assert forall c :: c in piece[..i] ==> c in piece;
      assert forall c :: c in piece[i + 1..] ==> c in piece;
  }

  lemma {:induction false} ParsePiecesChars(pieces: seq<string>)
    requires forall k :: 0 <= k < |pieces| ==> '&' !in pieces[k] && '#' !in pieces[k]
    ensures forall i :: 0 <= i < |ParsePieces(pieces)| ==> ParamChars(ParsePieces(pieces)[i])
  {
    if |pieces| > 0 {
      ParsePiecesChars(pieces[1..]);
      if pieces[0] != "" {
        ParseParamChars(pieces[0]);
      }
    }
  }

  lemma ParseQueryChars(query: string)
    requires '#' !in query
    ensures forall i :: 0 <= i < |ParseQuery(query)| ==> ParamChars(ParseQuery(query)[i])
  {
    SplitChars(query, '&');
    ParsePiecesChars(Split(query, '&'));
  }

  lemma AddParamOk(groups: seq<Group>, p: Param)
    requires forall i :: 0 <= i < |groups| ==> GroupOk(groups[i])
    requires ParamChars(p)
    ensures forall i :: 0 <= i < |AddParam(groups, p)| ==> GroupOk(AddParam(groups, p)[i])
  {
  }

  lemma {:induction false} AddAllOk(groups: seq<Group>, params: seq<Param>)
    requires forall i :: 0 <= i < |groups| ==> GroupOk(groups[i])
    requires forall i :: 0 <= i < |params| ==> ParamChars(params[i])
    ensures forall i :: 0 <= i < |AddAll(groups, params)| ==> GroupOk(AddAll(groups, params)[i])
    decreases |params|
  {
    if |params| > 0 {
      AddParamOk(groups, params[0]);
      AddAllOk(AddParam(groups, params[0]), params[1..]);
    }
  }

  /** The groups clean_url keeps are well formed and hold no tracking key. */
  lemma KeptWellFormed(query: string)
    requires '#' !in query
    ensures WellFormed(FilterTracking(GroupParams(ParseQuery(query))))
    ensures forall g :: g in FilterTracking(GroupParams(ParseQuery(query))) ==> g.key !in TrackingParams
  {
    var ps := ParseQuery(query);
    var gs := GroupParams(ps);
    ParseQueryChars(query);
    AddAllOk([], ps);
    GroupParamsValues(ps, "");
    FilterTrackingKeeps(gs, "");
    FilterTrackingSubset(gs);
    FilterTrackingOk(gs);
  }

  /** Filtering keeps only groups it was given, so well-formed groups stay well formed. */
  lemma {:induction false} FilterTrackingOk(groups: seq<Group>)
    requires forall i :: 0 <= i < |groups| ==> GroupOk(groups[i])
    ensures forall i :: 0 <= i < |FilterTracking(groups)| ==> GroupOk(FilterTracking(groups)[i])
  {
    if |groups| > 0 {
      FilterTrackingOk(groups[1..]);
      var rest := FilterTracking(groups[1..]);
      var head := if groups[0].key in TrackingParams then [] else [groups[0]];
      assert FilterTracking(groups) == head + rest;
      forall i | 0 <= i < |head + rest| ensures GroupOk((head + rest)[i]) {
        if i >= |head| {
          assert (head + rest)[i] == rest[i - |head|];
        }
      }
    }
  }

  lemma {:induction false} FlattenChars(groups: seq<Group>)
    requires forall i :: 0 <= i < |groups| ==> GroupOk(groups[i])
    ensures forall i :: 0 <= i < |Flatten(groups)| ==> ParamChars(Flatten(groups)[i])
    ensures |groups| > 0 ==> |Flatten(groups)| > 0
  {
    if |groups| > 0 {
      FlattenChars(groups[1..]);
      var e := Expand(groups[0]);
      assert forall i :: 0 <= i < |e| ==> ParamChars(e[i]);
    }
  }

  lemma {:induction false} FlattenAppend(groups: seq<Group>, g: Group)
    ensures Flatten(groups + [g]) == Flatten(groups) + Expand(g)
  {
    if |groups| > 0 {
      assert (groups + [g])[1..] == groups[1..] + [g];
      FlattenAppend(groups[1..], g);
    } else {
      assert groups + [g] == [g];
    }
  }

  lemma {:induction false} AddAllAppend(groups: seq<Group>, a: seq<Param>, b: seq<Param>)
    ensures AddAll(groups, a + b) == AddAll(AddAll(groups, a), b)
    decreases |a|
  {
    if |a| > 0 {
      assert (a + b)[0] == a[0] && (a + b)[1..] == a[1..] + b;
      AddAllAppend(AddParam(groups, a[0]), a[1..], b);
    } else {
      assert a + b == b;
    }
  }

  /** Adding the values of a new key one after another builds that key's group at the end. */
  lemma {:induction false} AddAllNewKey(groups: seq<Group>, key: string, done: seq<string>, rest: seq<string>)
    requires forall i :: 0 <= i < |groups| ==> groups[i].key != key
    ensures AddAll(groups + [Group(key, done)], Expand(Group(key, rest))) == groups + [Group(key, done + rest)]
    decreases |rest|
  {
    var e := Expand(Group(key, rest));
    if |rest| == 0 {
      assert done + rest == done;
    } else {
      var before := groups + [Group(key, done)];
      FindKeyExtend(groups, Group(key, done), key);
      assert AddParam(before, e[0]) == groups + [Group(key, done + [rest[0]])];
      assert e[1..] == Expand(Group(key, rest[1..]));
      AddAllNewKey(groups, key, done + [rest[0]], rest[1..]);
      assert done + [rest[0]] + rest[1..] == done + rest;
    }
  }

  /** Grouping the flattened pairs of well-formed groups gives the groups back. */
  lemma {:induction false} GroupFlatten(groups: seq<Group>)
    requires WellFormed(groups)
    ensures GroupParams(Flatten(groups)) == groups
  {
    if |groups| > 0 {
      var init, last := groups[..|groups| - 1], groups[|groups| - 1];
      assert groups == init + [last];
      assert WellFormed(init);
      GroupFlatten(init);
      FlattenAppend(init, last);
      AddAllAppend([], Flatten(init), Expand(last));
      assert forall i :: 0 <= i < |init| ==> init[i].key != last.key;
      AddAllFreshGroup(init, last);
    }
  }

  /** Adding the pairs of a group whose key is new appends that group whole. */
  lemma {:induction false} AddAllFreshGroup(groups: seq<Group>, g: Group)
    requires forall i :: 0 <= i < |groups| ==> groups[i].key != g.key
    requires |g.values| > 0
    ensures AddAll(groups, Expand(g)) == groups + [g]
  {
    var e := Expand(g);
    assert AddParam(groups, e[0]) == groups + [Group(g.key, [g.values[0]])];
    assert e[1..] == Expand(Group(g.key, g.values[1..]));
    AddAllNewKey(groups, g.key, [g.values[0]], g.values[1..]);
    assert [g.values[0]] + g.values[1..] == g.values;
  }

  /** The parameters of a URL's query, as `parse_qsl` reads them. */
  function QueryParams(url: string): seq<Param> {
    ParseQuery(ParseUrl(url).query)
  }

  /** What re-parsing clean_url's output finds: the same base and fragment, and the kept pairs grouped by key. */
  lemma CleanUrlParts(url: string)
    requires ParseUrl(url).query != ""
    ensures ParseUrl(CleanUrl(url)).base == ParseUrl(url).base
    ensures ParseUrl(CleanUrl(url)).fragment == ParseUrl(url).fragment
    ensures QueryParams(CleanUrl(url)) == Flatten(FilterTracking(GroupParams(QueryParams(url))))
  {
    var p := ParseUrl(url);
    ParseUrlChars(url);
    KeptWellFormed(p.query);
    Reassembled(p.base, FilterTracking(GroupParams(ParseQuery(p.query))), p.fragment);
  }

  /** The URL clean_url reassembles parses back into its parts, the query into the kept pairs. */
  lemma Reassembled(base: string, kept: seq<Group>, fragment: string)
    requires '#' !in base && '?' !in base
    requires forall i :: 0 <= i < |kept| ==> GroupOk(kept[i])
    ensures var q := if kept != [] then EncodeQuery(kept) else "";
      ParseUrl(Unparse(UrlParts(base, q, fragment))) == UrlParts(base, q, fragment) &&
      ParseQuery(q) == Flatten(kept)
  {
    FlattenChars(kept);
    if kept != [] {
      QueryRoundTrip(Flatten(kept));
      ParseUnparse(UrlParts(base, EncodeQuery(kept), fragment));
    } else {
      ParseUnparse(UrlParts(base, "", fragment));
      assert ParseQuery("") == [];
    }
  }

  /**
   * clean_url keeps the part before the query and the fragment, removes every
   * value of a tracking key, and keeps every other key with exactly its values in order.
   */
  lemma CleanUrlValues(url: string, key: string)
    ensures ParseUrl(CleanUrl(url)).base == ParseUrl(url).base
    ensures ParseUrl(CleanUrl(url)).fragment == ParseUrl(url).fragment
    ensures ValuesOf(QueryParams(CleanUrl(url)), key) ==
      if key in TrackingParams then [] else ValuesOf(QueryParams(url), key)
  {
    var ps := QueryParams(url);
    if ParseUrl(url).query != "" {
      CleanUrlParts(url);
      GroupParamsValues(ps, key);
      FilterTrackingKeeps(GroupParams(ps), key);
    }
  }

  /** Cleaning a cleaned URL changes nothing. */
  lemma CleanUrlIdempotent(url: string)
    ensures CleanUrl(CleanUrl(url)) == CleanUrl(url)
  {
    if ParseUrl(url).query != "" {
      CleanUrlReparse(url);
    }
  }

  /**
   * The cleaned URL re-parses into the same base and fragment and the new
   * query, and the groups that query gives are the kept groups again.
   */
  lemma CleanUrlReparse(url: string)
    requires ParseUrl(url).query != ""
    ensures var p := ParseUrl(url);
      var kept := FilterTracking(GroupParams(ParseQuery(p.query)));
      var q := if kept != [] then EncodeQuery(kept) else "";
      && CleanUrl(url) == Unparse(UrlParts(p.base, q, p.fragment))
      && ParseUrl(CleanUrl(url)) == UrlParts(p.base, q, p.fragment)
      && (q != "" ==> FilterTracking(GroupParams(ParseQuery(q))) == kept)
  {
    var p := ParseUrl(url);
    var kept := FilterTracking(GroupParams(ParseQuery(p.query)));
    ParseUrlChars(url);
    KeptWellFormed(p.query);
    Reassembled(p.base, kept, p.fragment);
    if kept != [] {
      GroupFlatten(kept);
      FilterTrackingNone(kept);
    }
  }

  // ----- Key order -----

  /** The keys of the groups, in order. */
  function Keys(groups: seq<Group>): seq<string> {
    seq(|groups|, i requires 0 <= i < |groups| => groups[i].key)
  }

  /** Each key of the pairs once, in the order of its first occurrence. */
  function FirstKeys(params: seq<Param>): seq<string> {
    if |params| == 0 then []
    else
      var seen := FirstKeys(params[..|params| - 1]);
      var key := params[|params| - 1].key;
      if key in seen then seen else seen + [key]
  }

  /** The keys that are not tracking keys, in order. */
  function DropTracking(keys: seq<string>): seq<string> {
    if |keys| == 0 then []
    else (if keys[0] in TrackingParams then [] else [keys[0]]) + DropTracking(keys[1..])
  }

  /** Adding a pair leaves the keys alone when its key is present, and appends the key otherwise. */
  lemma AddParamKeys(groups: seq<Group>, p: Param)
    ensures Keys(AddParam(groups, p)) == if p.key in Keys(groups) then Keys(groups) else Keys(groups) + [p.key]
  {
    match FindKey(groups, p.key)
    case Some(i) =>
      assert Keys(groups)[i] == p.key;
      assert Keys(AddParam(groups, p)) == Keys(groups);
    case None =>
      assert p.key !in Keys(groups) by {
        forall k | 0 <= k < |Keys(groups)| ensures Keys(groups)[k] != p.key {
          assert Keys(groups)[k] == groups[k].key;
        }
      }
      assert Keys(AddParam(groups, p)) == Keys(groups) + [p.key];
  }

  /** `parse_qs` keeps the keys in the order they first appear in the query. */
  lemma {:induction false} GroupParamsKeys(params: seq<Param>)
    ensures Keys(GroupParams(params)) == FirstKeys(params)
  {
    if |params| > 0 {
      var init, last := params[..|params| - 1], params[|params| - 1];
      assert params == init + [last];
      GroupParamsKeys(init);
      AddAllAppend([], init, [last]);
      AddParamKeys(GroupParams(init), last);
    }
  }

  /** Dropping the tracking groups drops exactly their keys and keeps the order of the rest. */
  lemma {:induction false} FilterTrackingKeys(groups: seq<Group>)
    ensures Keys(FilterTracking(groups)) == DropTracking(Keys(groups))
  {
    if |groups| > 0 {
      FilterTrackingKeys(groups[1..]);
      assert Keys(groups) == [groups[0].key] + Keys(groups[1..]);
      var head := if groups[0].key in TrackingParams then [] else [groups[0]];
      assert Keys(head + FilterTracking(groups[1..])) == Keys(head) + Keys(FilterTracking(groups[1..]));
    }
  }

  /**
   * The cleaned URL's keys are the original's keys in first-occurrence order,
   * tracking keys removed.
   */
  lemma CleanUrlKeyOrder(url: string)
    requires ParseUrl(url).query != ""
    ensures Keys(GroupParams(QueryParams(CleanUrl(url)))) == DropTracking(FirstKeys(QueryParams(url)))
  {
    var ps := QueryParams(url);
    var kept := FilterTracking(GroupParams(ps));
    ParseUrlChars(url);
    KeptWellFormed(ParseUrl(url).query);
    CleanUrlParts(url);
    GroupFlatten(kept);
    FilterTrackingKeys(GroupParams(ps));
    GroupParamsKeys(ps);
  }
}
