/**
 Header maps on both sides of the adapter (internal/lambdahttp): canonical names, the
 sorted order the source ranges over a map in, and the grouping of a map by canonical name.
 */
module Headers {
  import opened Bytes

  type HeaderMap = map<string, seq<string>>

  /** strings.Join. */
  function Join(values: seq<string>, glue: string): string {
    if values == [] then "" else if |values| == 1 then values[0] else values[0] + glue + Join(values[1..], glue)
  }

  // ---- canonical names -----------------------------------------------------------

  predicate IsToken(c: char) {
    'A' <= c <= 'Z' || 'a' <= c <= 'z' || '0' <= c <= '9' || c in "!#$%&'*+-.^_`|~"
  }

  function Upper(c: char): char { if 'a' <= c <= 'z' then (c as int - 32) as char else c }

  function Cased(s: string, start: bool): (r: string)
    ensures |r| == |s|
    decreases |s|
  {
    if s == "" then ""
    else [if start then Upper(s[0]) else LowerChar(s[0])] + Cased(s[1..], s[0] == '-')
  }

  /** CanonicalMIMEHeaderKey: a name with a byte no header may carry is left as it is. */
  function Canonical(name: string): string {
    if forall i :: 0 <= i < |name| ==> IsToken(name[i]) then Cased(name, true) else name
  }

  lemma LowerSplits(s: string)
    requires s != ""
    ensures Lower(s)[0] == LowerChar(s[0]) && Lower(s)[1..] == Lower(s[1..])
    ensures Lower(s) == [LowerChar(s[0])] + Lower(s[1..])
  {
  }

  lemma {:induction false} CasedByLower(s: string, u: string, start: bool)
    requires |s| == |u|
    ensures Cased(s, start) == Cased(u, start) <==> Lower(s) == Lower(u)
    decreases |s|
  {
    if s != "" {
      CasedByLower(s[1..], u[1..], s[0] == '-');
      assert Cased(s, start)[1..] == Cased(s[1..], s[0] == '-') && Cased(u, start)[1..] == Cased(u[1..], u[0] == '-');
      LowerSplits(s);
      LowerSplits(u);
    }
  }

  predicate IsHeaderName(s: string) { forall i :: 0 <= i < |s| ==> IsToken(s[i]) }

  /** Two header names meet under one canonical name exactly when they differ in case alone. */
  lemma CanonicalIgnoresCase(s: string, u: string)
    requires IsHeaderName(s) && IsHeaderName(u)
    ensures Canonical(s) == Canonical(u) <==> Lower(s) == Lower(u)
  {
    if |s| == |u| {
      CasedByLower(s, u, true);
    }
  }

  // ---- slices.Sorted(maps.Keys(m)) ---------------------------------------------------

  predicate IsLeast(k: string, keys: set<string>) {
    k in keys && forall o :: o in keys ==> o == k || Less(k, o)
  }

  lemma {:induction false} LeastExists(keys: set<string>) returns (least: string)
    requires keys != {}
    ensures IsLeast(least, keys)
    decreases |keys|
  {
    var k :| k in keys;
    if keys == {k} {
      least := k;
    } else {
      var rest := keys - {k};
      assert keys == rest + {k};
      var other := LeastExists(rest);
      LessTotal(k, other);
      if Less(k, other) {
        least := k;
        forall o | o in keys ensures o == k || Less(k, o) {
          if o != k && o != other {
            LessTransitive(k, other, o);
          }
        }
      } else {
        least := other;
      }
    }
  }

  lemma LeastIsUnique(k: string, o: string, keys: set<string>)
    requires IsLeast(k, keys) && IsLeast(o, keys)
    ensures k == o
  {
    if k != o {
      LessTransitive(k, o, k);
      LessIrreflexive(k);
    }
  }

  predicate Ascending(s: seq<string>) {
    forall i, j :: 0 <= i < j < |s| ==> Less(s[i], s[j])
  }

  ghost predicate SortedKeys(s: seq<string>, keys: set<string>) {
    Ascending(s) && forall k :: k in s <==> k in keys
  }

  /** slices.Sorted over the keys of a map. */
  method Sorted(keys: set<string>) returns (s: seq<string>)
    ensures SortedKeys(s, keys)
  {
    s := [];
    var todo := keys;
    while todo != {}
      invariant todo <= keys && Ascending(s)
      invariant forall k :: k in s <==> k in keys - todo
      invariant forall k, o :: k in s && o in todo ==> Less(k, o)
      decreases |todo|
    {
      ghost var least := LeastExists(todo);
      var k :| k in todo && forall o :: o in todo ==> o == k || Less(k, o);
      s := s + [k];
      todo := todo - {k};
    }
  }

  /** A set has one sorted listing, so the order of a range over it is settled. */
  lemma {:induction false} SortedOnce(s: seq<string>, s': seq<string>, keys: set<string>)
    requires SortedKeys(s, keys) && SortedKeys(s', keys)
    ensures s == s'
    decreases |s|
  {
    HeadIsListed(s, keys);
    HeadIsListed(s', keys);
    if s != [] {
      HeadIsLeast(s, keys);
      HeadIsLeast(s', keys);
      LeastIsUnique(s[0], s'[0], keys);
      TailIsSorted(s, keys);
      TailIsSorted(s', keys);
      SortedOnce(s[1..], s'[1..], keys - {s[0]});
      assert s == [s[0]] + s[1..] && s' == [s'[0]] + s'[1..];
    }
  }

  lemma HeadIsListed(s: seq<string>, keys: set<string>)
    requires SortedKeys(s, keys)
    ensures s == [] <==> keys == {}
  {
    if s != [] {
      assert s[0] in s;
    } else {
      assert keys == {};
    }
  }

  lemma HeadIsLeast(s: seq<string>, keys: set<string>)
    requires SortedKeys(s, keys) && s != []
    ensures IsLeast(s[0], keys)
  {
    forall o | o in keys ensures o == s[0] || Less(s[0], o) {
      assert o in s;
    }
  }

  lemma TailIsSorted(s: seq<string>, keys: set<string>)
    requires SortedKeys(s, keys) && s != []
    ensures SortedKeys(s[1..], keys - {s[0]})
  {
    assert s == [s[0]] + s[1..];
    LessIrreflexive(s[0]);
  }

  // ---- grouping by canonical name --------------------------------------------------------

  /** Every value the listed keys hold under the canonical name `c`, in the listed order. */
  function ValuesOf(h: HeaderMap, keys: seq<string>, c: string): seq<string>
    requires forall k :: k in keys ==> k in h
  {
    if keys == [] then []
    else
      var n := |keys| - 1;
      assert forall k :: k in keys[..n] ==> k in keys;
      ValuesOf(h, keys[..n], c) + if Canonical(keys[n]) == c then h[keys[n]] else []
  }
}
