/**
 * `decode_brightcove_url` (m3u8.py:50-73). Python's `urlparse` and
 * `parse_qs` are not part of this model: their combined effect on a
 * tracking URL is the parameter `parse`, which yields the query's
 * key/value pairs in the order `parse_qs` collects them, or `None` when
 * they raise. What is modelled is the lookup itself:
 * `params.get("media_url", [None])[0]` followed by the emptiness check.
 */
module Decoder {
  import opened Wrappers

  /** A parsed query string: its key/value pairs in order of appearance. */
  type Query = seq<(string, string)>

  /** The query parameter that carries the manifest URL. */
  const MediaUrlKey: string := "media_url"

  /** The position of the first pair with key `key`, if any. */
  function FirstIndex(q: Query, key: string): (r: Option<nat>)
    ensures r.None? <==> forall i :: 0 <= i < |q| ==> q[i].0 != key
    ensures r.Some? ==> r.value < |q| && q[r.value].0 == key
    ensures r.Some? ==> forall j :: 0 <= j < r.value ==> q[j].0 != key
  {
    if q == [] then None
    else if q[0].0 == key then Some(0)
    else match FirstIndex(q[1..], key)
      case None => None
      case Some(i) => Some(i + 1)
  }

  /** The value of the first `media_url` pair, unless there is none or it is
      empty; the lookup never fails in any other way. */
  function DecodeQuery(q: Query): (r: Option<string>)
    ensures r.Some? <==>
      FirstIndex(q, MediaUrlKey).Some? && q[FirstIndex(q, MediaUrlKey).value].1 != ""
    ensures r.Some? ==> r.value != ""
    ensures r.Some? ==>
      exists i :: 0 <= i < |q| && q[i] == (MediaUrlKey, r.value) && forall j :: 0 <= j < i ==> q[j].0 != MediaUrlKey
  {
    match FirstIndex(q, MediaUrlKey)
    case None => None
    case Some(i) => if q[i].1 == "" then None else Some(q[i].1)
  }

  /** The manifest URL of a tracking URL: `None` when parsing raises, when
      there is no `media_url` parameter, or when its first value is empty. */
  function DecodeBrightcoveUrl(trackingUrl: string, parse: string -> Option<Query>): (r: Option<string>)
    ensures parse(trackingUrl).None? ==> r.None?
    ensures parse(trackingUrl).Some? ==> r == DecodeQuery(parse(trackingUrl).value)
    ensures r.Some? ==> r.value != ""
  {
    match parse(trackingUrl)
    case None => None
    case Some(q) => DecodeQuery(q)
  }

  /** The first `media_url` pair decides: whatever follows it is ignored. */
  lemma {:induction false} DecodeQueryFirstWins(q: Query, rest: Query)
    requires exists i :: 0 <= i < |q| && q[i].0 == MediaUrlKey
    ensures DecodeQuery(q + rest) == DecodeQuery(q)
  {
    FirstIndexAppend(q, rest, MediaUrlKey);
  }

  lemma {:induction false} FirstIndexAppend(q: Query, rest: Query, key: string)
    requires exists i :: 0 <= i < |q| && q[i].0 == key
    ensures FirstIndex(q + rest, key) == FirstIndex(q, key)
    decreases |q|
  {
    if q[0].0 != key {
      assert (q + rest)[1..] == q[1..] + rest;
      var i :| 0 <= i < |q| && q[i].0 == key;
      assert q[1..][i - 1].0 == key;
      FirstIndexAppend(q[1..], rest, key);
    }
  }

  /** Pairs with other keys, wherever they stand, do not change the result. */
  lemma DecodeQueryIgnoresOtherKeys(q1: Query, other: Query, q2: Query)
    requires forall i :: 0 <= i < |other| ==> other[i].0 != MediaUrlKey
    ensures DecodeQuery(q1 + other + q2) == DecodeQuery(q1 + q2)
  {
    var long, short := q1 + other + q2, q1 + q2;
    if exists i :: 0 <= i < |q1| && q1[i].0 == MediaUrlKey {
      FirstIndexAppend(q1, other + q2, MediaUrlKey);
      FirstIndexAppend(q1, q2, MediaUrlKey);
      assert long == q1 + (other + q2);
      var i := FirstIndex(q1, MediaUrlKey).value;
      assert long[i] == q1[i] == short[i];
    } else {
      FirstIndexSkip(q1 + other, q2, MediaUrlKey);
      FirstIndexSkip(q1, q2, MediaUrlKey);
      match FirstIndex(q2, MediaUrlKey)
      case None =>
      case Some(j) =>
        assert long[j + |q1| + |other|] == q2[j] == short[j + |q1|];
    }
  }

  lemma {:induction false} FirstIndexSkip(other: Query, q: Query, key: string)
    requires forall i :: 0 <= i < |other| ==> other[i].0 != key
    ensures FirstIndex(other + q, key) ==
      match FirstIndex(q, key)
      case None => None
      case Some(i) => Some(i + |other|)
    decreases |other|
  {
    if other == [] {
      assert other + q == q;
    } else {
      assert (other + q)[1..] == other[1..] + q;
      FirstIndexSkip(other[1..], q, key);
    }
  }

  /** A query whose first pair is `media_url=v` decodes to `v` exactly
      when `v` is not empty. */
  lemma DecodeQueryCases(v: string, rest: Query)
    ensures DecodeQuery([(MediaUrlKey, v)] + rest) == if v == "" then None else Some(v)
  {
    assert ([(MediaUrlKey, v)] + rest)[0] == (MediaUrlKey, v);
  }
}
