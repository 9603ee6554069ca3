/** UTM parameters and paid-click markers of a query (src/referrer.rs), from its decoded pairs. */
module Referrals {
  import opened Words
  import opened Types

  type Pair = (Str, Str)

  /** A decoded query: its key/value pairs in order, or nothing when the URL does not parse. */
  type Query = Option<seq<Pair>>

  const SOURCE_KEYS: set<seq<byte>> := {Ascii("utm_source"), Ascii("source"), Ascii("ref")}
  const MEDIUM_KEYS: set<seq<byte>> := {Ascii("utm_medium"), Ascii("medium")}
  const CAMPAIGN_KEYS: set<seq<byte>> := {Ascii("utm_campaign"), Ascii("campaign")}
  const CONTENT_KEYS: set<seq<byte>> := {Ascii("utm_content"), Ascii("content")}
  const TERM_KEYS: set<seq<byte>> := {Ascii("utm_term"), Ascii("term")}

  const GOOGLE_CLICKS: set<seq<byte>> := {Ascii("gclid"), Ascii("gbraid"), Ascii("wbraid")}
  const BING_CLICKS: set<seq<byte>> := {Ascii("msclkid")}
  const PAID_CLICKS := GOOGLE_CLICKS + BING_CLICKS

  /** No key names two fields, so the order of the match arms does not matter. */
  lemma KeysDisjoint(k: seq<byte>)
    ensures k in SOURCE_KEYS ==> k !in MEDIUM_KEYS + CAMPAIGN_KEYS + CONTENT_KEYS + TERM_KEYS
    ensures k in MEDIUM_KEYS ==> k !in CAMPAIGN_KEYS + CONTENT_KEYS + TERM_KEYS
    ensures k in CAMPAIGN_KEYS ==> k !in CONTENT_KEYS + TERM_KEYS
    ensures k in CONTENT_KEYS ==> k !in TERM_KEYS
  {
    assert Ascii("utm_source")[4] == 's' as int && Ascii("utm_medium")[4] == 'm' as int;
    assert Ascii("source")[0] == 's' as int && Ascii("medium")[0] == 'm' as int;
    assert Ascii("campaign")[0] == 'c' as int && Ascii("utm_term")[0] == 'u' as int;
  }

  /** The click markers, and the only one that is not Google's. */
  lemma ClickMarkers(k: seq<byte>)
    ensures PAID_CLICKS == {Ascii("gclid"), Ascii("gbraid"), Ascii("wbraid"), Ascii("msclkid")}
    ensures k in PAID_CLICKS ==> (k in BING_CLICKS <==> k == Ascii("msclkid"))
    ensures k in PAID_CLICKS ==> (k in GOOGLE_CLICKS <==> k != Ascii("msclkid"))
  {
    assert |Ascii("msclkid")| == 7 && |Ascii("gclid")| == 5;
    assert |Ascii("gbraid")| == 6 && |Ascii("wbraid")| == 6;
  }

  // ---- What the loop should find -------------------------------------------

  /** The value of the first pair whose key is one of `keys`; an empty value counts. */
  function FirstValue(pairs: seq<Pair>, keys: set<seq<byte>>): Option<Str> {
    if pairs == [] then None
    else if pairs[0].0 in keys then Some(pairs[0].1)
    else FirstValue(pairs[1..], keys)
  }

  function FirstUtm(pairs: seq<Pair>): Utm {
    Utm(FirstValue(pairs, SOURCE_KEYS), FirstValue(pairs, MEDIUM_KEYS), FirstValue(pairs, CAMPAIGN_KEYS),
        FirstValue(pairs, CONTENT_KEYS), FirstValue(pairs, TERM_KEYS))
  }

  ghost predicate IsFirst(pairs: seq<Pair>, keys: set<seq<byte>>, i: int) {
    0 <= i < |pairs| && pairs[i].0 in keys && forall j :: 0 <= j < i ==> pairs[j].0 !in keys
  }

  lemma {:induction false} FirstValueMeaning(pairs: seq<Pair>, keys: set<seq<byte>>)
    ensures forall i :: IsFirst(pairs, keys, i) ==> FirstValue(pairs, keys) == Some(pairs[i].1)
    ensures (forall i :: 0 <= i < |pairs| ==> pairs[i].0 !in keys) <==> FirstValue(pairs, keys) == None
  {
    if pairs != [] {
      FirstValueMeaning(pairs[1..], keys);
      forall i | IsFirst(pairs, keys, i) ensures FirstValue(pairs, keys) == Some(pairs[i].1) {
        if i != 0 {
          assert IsFirst(pairs[1..], keys, i - 1);
        }
      }
      assert pairs[0].0 !in keys ==>
        forall i :: 0 <= i < |pairs[1..]| ==> pairs[1..][i] == pairs[i + 1];
    }
  }

  // ---- Concatenation -------------------------------------------------------

  function OrElse<T>(a: Option<T>, b: Option<T>): Option<T> {
    if a.Some? then a else b
  }

  /** Field by field, the left value where there is one. */
  function LeftBiased(a: Utm, b: Utm): Utm {
    Utm(OrElse(a.source, b.source), OrElse(a.medium, b.medium), OrElse(a.campaign, b.campaign),
        OrElse(a.content, b.content), OrElse(a.term, b.term))
  }

  lemma {:induction false} FirstValueConcat(a: seq<Pair>, b: seq<Pair>, keys: set<seq<byte>>)
    ensures FirstValue(a + b, keys) == OrElse(FirstValue(a, keys), FirstValue(b, keys))
  {
    if a == [] {
      assert a + b == b;
    } else {
      assert (a + b)[1..] == a[1..] + b;
      FirstValueConcat(a[1..], b, keys);
    }
  }

  lemma FirstUtmConcat(a: seq<Pair>, b: seq<Pair>)
    ensures FirstUtm(a + b) == LeftBiased(FirstUtm(a), FirstUtm(b))
  {
    FirstValueConcat(a, b, SOURCE_KEYS);
    FirstValueConcat(a, b, MEDIUM_KEYS);
    FirstValueConcat(a, b, CAMPAIGN_KEYS);
    FirstValueConcat(a, b, CONTENT_KEYS);
    FirstValueConcat(a, b, TERM_KEYS);
  }

  // ---- The loops -----------------------------------------------------------

  /** `get_or_insert`. */
  function GetOrInsert(field: Option<Str>, v: Str): Option<Str> {
    if field.None? then Some(v) else field
  }

  /** `extract_utm`, after the URL is parsed. */
  method ExtractUtm(query: Query) returns (u: Utm)
    ensures u == FirstUtm(query.UnwrapOr([]))
    ensures var pairs := query.UnwrapOr([]);
      && u.source == FirstValue(pairs, {Ascii("utm_source"), Ascii("source"), Ascii("ref")})
      && u.medium == FirstValue(pairs, {Ascii("utm_medium"), Ascii("medium")})
      && u.campaign == FirstValue(pairs, {Ascii("utm_campaign"), Ascii("campaign")})
      && u.content == FirstValue(pairs, {Ascii("utm_content"), Ascii("content")})
      && u.term == FirstValue(pairs, {Ascii("utm_term"), Ascii("term")})
  {
    u := EMPTY_UTM;
    if query.Some? {
      var pairs := query.value;
      for i := 0 to |pairs|
        invariant u == FirstUtm(pairs[..i])
      {
        var (k, v) := pairs[i];
        OnePair(pairs[i]);
        FirstUtmConcat(pairs[..i], [pairs[i]]);
        assert pairs[..i + 1] == pairs[..i] + [pairs[i]];
        if k in SOURCE_KEYS {
          u := u.(source := GetOrInsert(u.source, v));
        } else if k in MEDIUM_KEYS {
          u := u.(medium := GetOrInsert(u.medium, v));
        } else if k in CAMPAIGN_KEYS {
          u := u.(campaign := GetOrInsert(u.campaign, v));
        } else if k in CONTENT_KEYS {
          u := u.(content := GetOrInsert(u.content, v));
        } else if k in TERM_KEYS {
          u := u.(term := GetOrInsert(u.term, v));
        }
      }
      assert pairs[..|pairs|] == pairs;
    }
  }

  /** What a single pair contributes: at most one field. */
  lemma OnePair(p: Pair)
    ensures FirstUtm([p]) ==
      if p.0 in SOURCE_KEYS then EMPTY_UTM.(source := Some(p.1))
      else if p.0 in MEDIUM_KEYS then EMPTY_UTM.(medium := Some(p.1))
      else if p.0 in CAMPAIGN_KEYS then EMPTY_UTM.(campaign := Some(p.1))
      else if p.0 in CONTENT_KEYS then EMPTY_UTM.(content := Some(p.1))
      else if p.0 in TERM_KEYS then EMPTY_UTM.(term := Some(p.1))
      else EMPTY_UTM
  {
    KeysDisjoint(p.0);
    forall keys: set<seq<byte>>
      ensures FirstValue([p], keys) == if p.0 in keys then Some(p.1) else None
    {
      assert [p][1..] == [];
    }
  }

  /** `paid_click`, after the URL is parsed: the first click marker decides. */
  method PaidClick(query: Query) returns (r: Option<(Str, Str)>)
    ensures var pairs := query.UnwrapOr([]);
      var clicks := {Ascii("gclid"), Ascii("gbraid"), Ascii("wbraid"), Ascii("msclkid")};
      && (r == None <==> forall i :: 0 <= i < |pairs| ==> pairs[i].0 !in clicks)
      && (r.Some? ==> exists i :: IsFirst(pairs, clicks, i))
      && (forall i :: IsFirst(pairs, clicks, i) ==>
            r == Some((if pairs[i].0 == Ascii("msclkid") then Ascii("bing") else Ascii("google"), Ascii("cpc"))))
  {
    if query.None? {
      return None;
    }
    var pairs := query.value;
    assert query.UnwrapOr([]) == pairs;
    ClickMarkers([]);
    for i := 0 to |pairs|
      invariant forall j :: 0 <= j < i ==> pairs[j].0 !in PAID_CLICKS
    {
      ClickMarkers(pairs[i].0);
      if pairs[i].0 in GOOGLE_CLICKS {
        assert IsFirst(pairs, PAID_CLICKS, i);
        assert query.UnwrapOr([])[i].0 in PAID_CLICKS;
        return Some((Ascii("google"), Ascii("cpc")));
      } else if pairs[i].0 in BING_CLICKS {
        assert IsFirst(pairs, PAID_CLICKS, i);
        assert query.UnwrapOr([])[i].0 in PAID_CLICKS;
        return Some((Ascii("bing"), Ascii("cpc")));
      }
    }
    return None;
  }
}
