/**
 * Values shared by every part of the model: optional values (a JavaScript
 * property that may be `undefined` or `null`), JavaScript truthiness of an
 * optional string, and the few string operations the store uses
 * (number formatting in template literals, `Array.prototype.join`,
 * `String.prototype.indexOf` and `String.prototype.replace` with a string
 * pattern).
 */
module Common {

  datatype Option<+T> = None | Some(value: T)

  /** JavaScript truthiness of an optional string: `undefined`, `null` and "" are falsy. */
  predicate Truthy(o: Option<string>)
  {
    o.Some? && o.value != ""
  }

  /** `a || b` on optional strings. */
  function OrElse(a: Option<string>, b: string): (r: string)
    ensures Truthy(a) ==> r == a.value
    ensures !Truthy(a) ==> r == b
  {
    if Truthy(a) then a.value else b
  }

  function DigitChar(d: nat): (c: char)
    requires d < 10
    ensures '0' <= c <= '9'
  {
    ('0' as int + d) as char
  }

  /** The decimal text of a natural number, as a template literal `${n}` shows it. */
  function NatToString(n: nat): (s: string)
    ensures |s| > 0
    ensures forall i | 0 <= i < |s| :: '0' <= s[i] <= '9'
    ensures n < 10 ==> s == [DigitChar(n)]
  {
    if n < 10 then [DigitChar(n)] else NatToString(n / 10) + [DigitChar(n % 10)]
  }

  lemma SplitAt<X>(xs: seq<X>, k: nat)
    requires k < |xs|
    ensures xs[..k] + ([xs[k]] + xs[k + 1..]) == xs
  {
  }

  lemma AppendHead<X>(a: seq<X>, b: seq<X>)
    requires |b| > 0
    ensures (a + [b[0]]) + b[1..] == a + b
  {
    assert b == [b[0]] + b[1..];
  }

  lemma Assoc<X>(a: seq<X>, b: seq<X>, c: seq<X>)
    ensures a + b + c == a + (b + c)
  {
  }

  /** `parts.join(sep)`. */
  function Join(parts: seq<string>, sep: string): string
  {
    if |parts| == 0 then ""
    else if |parts| == 1 then parts[0]
    else parts[0] + sep + Join(parts[1..], sep)
  }

  /** `parts.join("")`. */
  function Concat(parts: seq<string>): string
  {
    if |parts| == 0 then "" else parts[0] + Concat(parts[1..])
  }

  lemma {:induction false} JoinAppend(parts: seq<string>, x: string, sep: string)
    ensures Join(parts + [x], sep) == if parts == [] then x else Join(parts, sep) + sep + x
  {
    if |parts| == 0 {
      assert parts + [x] == [x];
    } else if |parts| == 1 {
      assert (parts + [x])[1..] == [x];
    } else {
      assert (parts + [x])[1..] == parts[1..] + [x];
      JoinAppend(parts[1..], x, sep);
    }
  }

  lemma {:induction false} ConcatAppend(parts: seq<string>, x: string)
    ensures Concat(parts + [x]) == Concat(parts) + x
  {
    if |parts| == 0 {
      assert parts + [x] == [x];
    } else {
      assert (parts + [x])[1..] == parts[1..] + [x];
      ConcatAppend(parts[1..], x);
    }
  }

  lemma {:induction false} ConcatJoin(a: seq<string>, b: seq<string>)
    ensures Concat(a + b) == Concat(a) + Concat(b)
  {
    if a == [] {
      assert a + b == b;
    } else {
      assert (a + b)[1..] == a[1..] + b;
      ConcatJoin(a[1..], b);
    }
  }

  /** Part `k` stands in `parts.join("")` between the parts before it and the parts after it. */
  lemma ConcatSplit(parts: seq<string>, k: nat)
    requires k < |parts|
    ensures Concat(parts) == Concat(parts[..k]) + parts[k] + Concat(parts[k + 1..])
  {
    var a, b := parts[..k], parts[k + 1..];
    SplitAt(parts, k);
    ConcatJoin(a, [parts[k]] + b);
    assert ([parts[k]] + b)[1..] == b;
  }

  /** `xs.map(f)`. */
  function MapSeq<T>(xs: seq<T>, f: T -> string): (r: seq<string>)
    ensures |r| == |xs|
    ensures forall k | 0 <= k < |xs| :: r[k] == f(xs[k])
  {
    seq(|xs|, k requires 0 <= k < |xs| => f(xs[k]))
  }

  lemma ConcatMapLast<T>(xs: seq<T>, f: T -> string)
    requires xs != []
    ensures Concat(MapSeq(xs, f)) == Concat(MapSeq(xs[..|xs| - 1], f)) + f(xs[|xs| - 1])
  {
    var init := xs[..|xs| - 1];
    assert MapSeq(xs, f) == MapSeq(init, f) + [f(xs[|xs| - 1])];
    ConcatAppend(MapSeq(init, f), f(xs[|xs| - 1]));
  }

  /** `xs.map(f).join("")` is the parts before `k`, then `f(xs[k])`, then the parts after it. */
  lemma ConcatMapSplit<T>(xs: seq<T>, f: T -> string, k: nat)
    requires k < |xs|
    ensures Concat(MapSeq(xs, f)) == Concat(MapSeq(xs[..k], f)) + f(xs[k]) + Concat(MapSeq(xs[k + 1..], f))
  {
    var hs := MapSeq(xs, f);
    ConcatSplit(hs, k);
    assert hs[..k] == MapSeq(xs[..k], f);
    assert hs[k + 1..] == MapSeq(xs[k + 1..], f);
  }

  /** `x` is a substring of `s`. */
  ghost predicate Within(x: string, s: string)
  {
    exists pre, post :: s == pre + x + post
  }

  lemma WithinSelf(x: string)
    ensures Within(x, x)
  {
    assert x == "" + x + "";
  }

  lemma WithinPrefix(x: string, s: string, a: string)
    requires Within(x, s)
    ensures Within(x, a + s)
  {
    var pre, post :| s == pre + x + post;
    assert a + s == (a + pre) + x + post;
  }

  lemma WithinSuffix(x: string, s: string, b: string)
    requires Within(x, s)
    ensures Within(x, s + b)
  {
    var pre, post :| s == pre + x + post;
    assert s + b == pre + x + (post + b);
  }

  /** Part `k` of `parts` stands in `Join(parts, sep)` between the earlier parts and the later ones. */
  lemma {:induction false} JoinHasPart(parts: seq<string>, sep: string, k: nat)
    requires k < |parts|
    ensures Within(parts[k], Join(parts, sep))
  {
    if k == 0 {
      WithinSelf(parts[0]);
      if |parts| > 1 {
        WithinSuffix(parts[0], parts[0], sep);
        WithinSuffix(parts[0], parts[0] + sep, Join(parts[1..], sep));
      }
    } else {
      JoinHasPart(parts[1..], sep, k - 1);
      WithinPrefix(parts[k], Join(parts[1..], sep), parts[0] + sep);
    }
  }

  predicate OccursAt(s: string, pat: string, i: nat)
  {
    i + |pat| <= |s| && s[i..i + |pat|] == pat
  }

  function IndexOfFrom(s: string, pat: string, from: nat): (r: Option<nat>)
    requires from <= |s|
    ensures r.Some? ==> from <= r.value && OccursAt(s, pat, r.value)
    decreases |s| - from
  {
    if OccursAt(s, pat, from) then Some(from)
    else if from == |s| then None
    else IndexOfFrom(s, pat, from + 1)
  }

  /** `s.indexOf(pat)`: the first position at which `pat` occurs in `s`, if any. */
  function IndexOf(s: string, pat: string): (r: Option<nat>)
    ensures r.Some? ==> OccursAt(s, pat, r.value)
  {
    IndexOfFrom(s, pat, 0)
  }

  lemma {:induction false} IndexOfFromFirst(s: string, pat: string, from: nat)
    requires from <= |s|
    ensures var r := IndexOfFrom(s, pat, from);
      && (r.Some? ==> forall j | from <= j < r.value :: !OccursAt(s, pat, j))
      && (r.None? ==> forall j | from <= j <= |s| :: !OccursAt(s, pat, j))
    decreases |s| - from
  {
    if !OccursAt(s, pat, from) && from < |s| {
      IndexOfFromFirst(s, pat, from + 1);
    }
  }

  /** `indexOf` finds the first occurrence, and reports none only when there is none. */
  lemma IndexOfFirst(s: string, pat: string)
    ensures var r := IndexOf(s, pat);
      && (r.Some? ==> forall j | 0 <= j < r.value :: !OccursAt(s, pat, j))
      && (r.None? ==> forall j | 0 <= j <= |s| :: !OccursAt(s, pat, j))
  {
    IndexOfFromFirst(s, pat, 0);
  }

  /** `s.replace(pat, rep)` for a string pattern: only the first occurrence is replaced. */
  function ReplaceFirst(s: string, pat: string, rep: string): string
  {
    match IndexOf(s, pat)
    case None => s
    case Some(i) => s[..i] + rep + s[i + |pat|..]
  }

  /** The entries of `xs`, as the set `xs.includes` tests. */
  function Members(xs: seq<string>): (r: set<string>)
    ensures forall x :: x in r <==> x in xs
  {
    set x | x in xs
  }

  /** `xs.filter(x => !drop.includes(x))`: the entries of `xs` outside `drop`, in order. */
  function Except(xs: seq<string>, drop: set<string>): (r: seq<string>)
    ensures forall x :: x in r <==> x in xs && x !in drop
    ensures |r| <= |xs|
  {
    if xs == [] then []
    else if xs[0] in drop then Except(xs[1..], drop)
    else [xs[0]] + Except(xs[1..], drop)
  }
}
