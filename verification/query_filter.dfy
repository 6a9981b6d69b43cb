/** filterQuery: the query parameters that may become part of a cache file
    name. Only whitelisted keys count, and only the first two parameters are
    looked at. */
module QueryFilter {
  import opened Wrappers
  import opened Strings

  /** The text before the first '=' of a pair: explode('=', pair)[0]. */
  function Key(pair: string): (r: string)
    ensures '=' !in r
    ensures |r| <= |pair| && r == pair[..|r|]
    ensures '=' !in pair ==> r == pair
  {
    ImplodeSplit(pair, '=');
    ImplodePrefix(Split(pair, '='), '=');
    if '=' !in pair then SplitWithout(pair, '='); Split(pair, '=')[0]
    else Split(pair, '=')[0]
  }

  /** The text between the first and the second '=': explode('=', pair)[1],
      which exists only when the pair holds a '='. */
  function Value(pair: string): (r: string)
    requires '=' in pair
    ensures '=' !in r
    ensures |Key(pair)| + 1 + |r| <= |pair| && pair[..|Key(pair)| + 1 + |r|] == Key(pair) + "=" + r
  {
    SplitCount(pair, '=');
    ImplodeSplit(pair, '=');
    ImplodePrefix(Split(pair, '='), '=');
    Split(pair, '=')[1]
  }

  /** The pair as filterQuery writes it back: key, '=', value. Whatever
      followed a second '=' is lost. */
  function Canonical(pair: string): (r: string)
    requires '=' in pair
    ensures |r| <= |pair| && r == pair[..|r|]
    ensures '=' in r
  {
    assert (Key(pair) + "=" + Value(pair))[|Key(pair)|] == '=';
    Key(pair) + "=" + Value(pair)
  }

  /** The parameters filterQuery looks at: explode('&') and at most the first
      two pieces. */
  function Inspected(query: string): (r: seq<string>)
    ensures 1 <= |r| <= 2
    ensures |r| == 2 <==> '&' in query
  {
    SplitCount(query, '&');
    var pairs := Split(query, '&');
    if |pairs| >= 2 then pairs[..2] else pairs
  }

  /** filterQuery reads explode('=', pair)[1] only for a whitelisted key, and
      that offset must exist. */
  predicate Readable(pair: string, tags: seq<string>) {
    Key(pair) in tags ==> '=' in pair
  }

  /** What filterQuery demands of its input: every inspected parameter that
      it will copy has a '='. */
  predicate WellFormed(query: string, whitelist: Option<seq<string>>) {
    whitelist.Some? ==>
      forall i :: 0 <= i < |Inspected(query)| ==> Readable(Inspected(query)[i], whitelist.value)
  }

  /** filterQuery: null without a whitelist; for a single parameter, the
      parameter when its key is whitelisted; otherwise the whitelisted ones of
      the first two parameters, in order and joined by '&', or null when
      neither is whitelisted. */
  function FilterQuery(query: string, whitelist: Option<seq<string>>): (r: Option<string>)
    requires WellFormed(query, whitelist)
    ensures whitelist.None? ==> r.None?
    ensures r.Some? ==> r.value != "" && r.value[0] != '&'
    ensures whitelist.Some? && '&' !in query ==> (r.Some? <==> Key(query) in whitelist.value)
    ensures whitelist.Some? && '&' in query ==>
      (r.None? <==> Key(Inspected(query)[0]) !in whitelist.value && Key(Inspected(query)[1]) !in whitelist.value)
  {
    if whitelist.None? then None
    else
      var tags := whitelist.value;
      SplitCount(query, '&');
      if '&' !in query then
        SplitWithout(query, '&');
        assert Inspected(query) == [query];
        assert Readable(Inspected(query)[0], tags);
        if Key(query) !in tags then None
        else
          SplitPiecesAvoid(query, '=', '&');
          Some(Key(query) + "=" + Value(query))
      else
        var pairs := Split(query, '&');
        var one, two := pairs[0], pairs[1];
        assert Inspected(query) == [one, two];
        assert Readable(one, tags) && Readable(two, tags);
        if Key(one) !in tags && Key(two) !in tags then None
        else
          SplitPiecesAvoid(one, '=', '&');
          SplitPiecesAvoid(two, '=', '&');
          var combine := if Key(one) in tags then Key(one) + "=" + Value(one) else "";
          if Key(two) in tags then
            if combine == "" then Some(Key(two) + "=" + Value(two))
            else Some(combine + "&" + Key(two) + "=" + Value(two))
          else Some(combine)
  }

  /** The whitelisted parameters among pairs, each written back as key=value,
      in their original order. */
  function Whitelisted(pairs: seq<string>, tags: seq<string>): (r: seq<string>)
    requires forall i :: 0 <= i < |pairs| ==> Readable(pairs[i], tags)
    ensures |r| <= |pairs|
    ensures forall i :: 0 <= i < |r| ==> '=' in r[i]
  {
    if |pairs| == 0 then []
    else
      var rest := Whitelisted(pairs[1..], tags);
      assert Readable(pairs[0], tags);
      if Key(pairs[0]) in tags then [Canonical(pairs[0])] + rest else rest
  }

  /** A reference statement of filterQuery: the whitelisted ones among the
      inspected parameters, joined by '&', or nothing when there are none. */
  function FilterSpec(query: string, whitelist: Option<seq<string>>): (r: Option<string>)
    requires WellFormed(query, whitelist)
    ensures whitelist.None? ==> r.None?
    ensures r.Some? ==> r.value != ""
  {
    if whitelist.None? then None
    else
      var kept := Whitelisted(Inspected(query), whitelist.value);
      if kept == [] then None
      else
        ImplodePrefix(kept, '&');
        assert kept[0] != "";
        Some(Implode(kept, '&'))
  }

  /** filterQuery agrees with the reference statement on every input. */
  lemma FilterQueryMatchesSpec(query: string, whitelist: Option<seq<string>>)
    requires WellFormed(query, whitelist)
    ensures FilterQuery(query, whitelist) == FilterSpec(query, whitelist)
  {
    if whitelist.Some? {
      if '&' !in query {
        SingleMatchesSpec(query, whitelist.value);
      } else {
        PairMatchesSpec(query, whitelist.value);
      }
    }
  }

  /** The reference statement on a query of one parameter. */
  lemma SingleMatchesSpec(query: string, tags: seq<string>)
    requires WellFormed(query, Some(tags)) && '&' !in query
    ensures FilterQuery(query, Some(tags)) == FilterSpec(query, Some(tags))
  {
    var ins := Inspected(query);
    SplitWithout(query, '&');
    assert ins == [query];
    assert Readable(ins[0], tags);
    assert ins[1..] == [];
    assert Whitelisted(ins, tags) == if Key(query) in tags then [Canonical(query)] else [];
  }

  /** The reference statement on a query of two or more parameters. */
  lemma PairMatchesSpec(query: string, tags: seq<string>)
    requires WellFormed(query, Some(tags)) && '&' in query
    ensures FilterQuery(query, Some(tags)) == FilterSpec(query, Some(tags))
  {
    SplitCount(query, '&');
    var ins := Inspected(query);
    var pairs := Split(query, '&');
    var one, two := pairs[0], pairs[1];
    assert ins == [one, two];
    assert Readable(ins[0], tags) && Readable(ins[1], tags);
    assert ins[1..] == [two];
    assert [two][1..] == [];
    var w2 := if Key(two) in tags then [Canonical(two)] else [];
    assert Whitelisted([two], tags) == w2;
    assert Whitelisted(ins, tags) == (if Key(one) in tags then [Canonical(one)] else []) + w2;
    if Key(one) in tags && Key(two) in tags {
      var c1, c2 := Canonical(one), Canonical(two);
      assert c1[|Key(one)|] == '=';
      assert Implode([c1, c2], '&') == c1 + "&" + c2;
      assert c1 + "&" + Key(two) + "=" + Value(two) == c1 + "&" + c2;
    }
  }

  /** A written-back pair has a '=' and the same key, and writing it back
      again changes nothing. */
  lemma CanonicalIsFixed(pair: string)
    requires '=' in pair
    ensures '=' in Canonical(pair)
    ensures Key(Canonical(pair)) == Key(pair)
    ensures Canonical(Canonical(pair)) == Canonical(pair)
  {
    var k, v := Key(pair), Value(pair);
    var c := k + "=" + v;
    assert c[|k|] == '=';
    SplitCount(pair, '=');
    SplitWithout(k, '=');
    SplitWithout(v, '=');
    SplitAppend(k, v, '=');
    assert Split(c, '=') == [k, v];
  }

  /** A written-back pair holds no '&' when the pair held none. */
  lemma CanonicalAvoids(pair: string)
    requires '=' in pair && '&' !in pair
    ensures '&' !in Canonical(pair)
  {
    SplitCount(pair, '=');
    SplitPiecesAvoid(pair, '=', '&');
  }

  /** The filtered query is a fixed point: filtering it again, with the same
      whitelist, gives it back unchanged. So a cache key derived from it is
      stable. */
  lemma FilterQueryIdempotent(query: string, whitelist: Option<seq<string>>)
    requires WellFormed(query, whitelist)
    requires FilterQuery(query, whitelist).Some?
    ensures WellFormed(FilterQuery(query, whitelist).value, whitelist)
    ensures FilterQuery(FilterQuery(query, whitelist).value, whitelist) == FilterQuery(query, whitelist)
  {
    FilterQueryMatchesSpec(query, whitelist);
    var tags := whitelist.value;
    var ins := Inspected(query);
    var kept := Whitelisted(ins, tags);
    var r := Implode(kept, '&');
    assert forall i :: 0 <= i < |ins| ==> '&' !in ins[i] && Readable(ins[i], tags) by {
      assert forall i :: 0 <= i < |ins| ==> ins[i] == Split(query, '&')[i];
    }
    // Every kept entry is the written-back form of a whitelisted inspected pair.
    WhitelistedFixed(ins, tags);
    assert kept != [];
    assert forall i :: 0 <= i < |kept| ==> '&' !in kept[i];
    SplitImplode(kept, '&');
    assert Split(r, '&') == kept;
    assert Inspected(r) == kept;
    assert WellFormed(r, whitelist);
    WhitelistedOfFixed(kept, tags);
    FilterQueryMatchesSpec(r, whitelist);
  }

  /** Whitelisted entries are written-back pairs with whitelisted keys. */
  lemma {:induction false} WhitelistedFixed(pairs: seq<string>, tags: seq<string>)
    requires forall i :: 0 <= i < |pairs| ==> Readable(pairs[i], tags) && '&' !in pairs[i]
    ensures forall i :: 0 <= i < |Whitelisted(pairs, tags)| ==>
      Readable(Whitelisted(pairs, tags)[i], tags) && Fixed(Whitelisted(pairs, tags)[i], tags)
  {
    if |pairs| > 0 {
      WhitelistedFixed(pairs[1..], tags);
      var rest := Whitelisted(pairs[1..], tags);
      assert forall i :: 0 <= i < |rest| ==> Fixed(rest[i], tags);
      assert Readable(pairs[0], tags);
      if Key(pairs[0]) in tags {
        CanonicalIsFixed(pairs[0]);
        CanonicalAvoids(pairs[0]);
        var c := Canonical(pairs[0]);
        assert Fixed(c, tags);
        var kept := [c] + rest;
        assert Whitelisted(pairs, tags) == kept;
        assert Readable(kept[0], tags) && Fixed(kept[0], tags);
        forall i | 1 <= i < |kept|
          ensures Readable(kept[i], tags) && Fixed(kept[i], tags)
        {
          assert kept[i] == rest[i - 1];
        }
      }
    }
  }

  /** An entry as filterQuery writes it back: no '&', a '=', a whitelisted key,
      and unchanged by writing it back again. */
  predicate Fixed(pair: string, tags: seq<string>) {
    '&' !in pair && '=' in pair && Key(pair) in tags && Canonical(pair) == pair
  }

  /** Filtering pairs that are already written back and whitelisted keeps
      them all, unchanged. */
  lemma {:induction false} WhitelistedOfFixed(pairs: seq<string>, tags: seq<string>)
    requires forall i :: 0 <= i < |pairs| ==> Readable(pairs[i], tags) && Fixed(pairs[i], tags)
    ensures Whitelisted(pairs, tags) == pairs
  {
    if |pairs| > 0 {
      WhitelistedOfFixed(pairs[1..], tags);
      assert pairs == [pairs[0]] + pairs[1..];
    }
  }

  /** Parameters after the second one never matter: appending more of them
      leaves the result unchanged. */
  lemma FilterQueryIgnoresTail(a: string, b: string, rest: string, whitelist: Option<seq<string>>)
    requires '&' !in a && '&' !in b
    requires WellFormed(a + "&" + b, whitelist)
    ensures WellFormed(a + "&" + b + "&" + rest, whitelist)
    ensures FilterQuery(a + "&" + b + "&" + rest, whitelist) == FilterQuery(a + "&" + b, whitelist)
  {
    var two := a + "&" + b;
    var more := a + "&" + b + "&" + rest;
    assert more == a + ['&'] + (b + "&" + rest);
    SplitAppend(a, b + "&" + rest, '&');
    SplitAppend(b, rest, '&');
    SplitAppend(a, b, '&');
    SplitWithout(a, '&');
    SplitWithout(b, '&');
    assert Split(two, '&') == [a, b];
    assert Split(more, '&')[..2] == [a, b];
    assert Inspected(more) == Inspected(two);
    assert two[|a|] == '&';
    assert more[|a|] == '&';
  }

  /** Of two parameters only the whitelisted one is kept: "a=1&b=2" with the
      whitelist ["b"] filters to "b=2". */
  lemma SecondParameterExample()
    ensures FilterQuery("a=1&b=2", Some(["b"])) == Some("b=2")
  {
    var first, second := "a" + "=" + "1", "b" + "=" + "2";
    assert Key(first) == "a" by { PairParts("a", "1"); }
    DropFirstKeepSecond(first, "b", "2", ["b"]);
    assert first + "&" + second == "a=1&b=2";
    assert second == "b=2";
  }

  /** Of two parameters, a first whose key is not whitelisted is dropped and
      a whitelisted key=value second is kept as it is. */
  lemma DropFirstKeepSecond(first: string, k: string, v: string, tags: seq<string>)
    requires '&' !in first && '&' !in k && '&' !in v
    requires '=' !in k && '=' !in v
    requires Key(first) !in tags && k in tags
    ensures WellFormed(first + "&" + (k + "=" + v), Some(tags))
    ensures FilterQuery(first + "&" + (k + "=" + v), Some(tags)) == Some(k + "=" + v)
  {
    var second := k + "=" + v;
    var query := first + "&" + second;
    assert '&' !in second;
    assert query == first + ['&'] + second;
    assert query[|first|] == '&';
    SplitPair(first, second, '&');
    assert Inspected(query) == [first, second];
    PairParts(k, v);
  }

  /** A parameter written as key=value, neither holding '=', reads back as
      that key and that value. */
  lemma PairParts(k: string, v: string)
    requires '=' !in k && '=' !in v
    ensures Key(k + "=" + v) == k && Value(k + "=" + v) == v
  {
    assert k + "=" + v == k + ['='] + v;
    SplitPair(k, v, '=');
  }

  /** Whatever follows a second '=' is lost: "a=b=c" filters to "a=b". */
  lemma SecondEqualsExample()
    ensures FilterQuery("a=b=c", Some(["a"])) == Some("a=b")
  {
    assert "a=b=c" == "a" + ['='] + "b=c";
    SplitAppend("a", "b=c", '=');
    SplitWithout("a", '=');
    assert "b=c" == "b" + ['='] + "c";
    SplitPair("b", "c", '=');
    SplitWithout("a=b=c", '&');
    assert Split("a=b=c", '=') == ["a", "b", "c"];
    assert Key("a=b=c") == "a" && Value("a=b=c") == "b";
    assert Key("a=b=c") in ["a"];
    assert Key("a=b=c") + "=" + Value("a=b=c") == "a=b";
  }
}
