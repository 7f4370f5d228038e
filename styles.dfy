/**
 * The style record of an element (`ElementStyle` in src/types/index.ts).
 *
 * A style is a JavaScript object whose own properties are optional strings.
 * Its serialisation walks `Object.entries`, so the ORDER in which properties
 * were first created matters; the model is therefore an ordered association
 * list of declarations with pairwise distinct property names. `Put` is a
 * property assignment (an existing property keeps its place, a new one goes
 * last), `Remove` is `delete`, and `Merge` is the object spread `{...a, ...b}`.
 */
module Styles {
  import opened Common

  datatype Prop = Prop(name: string, value: string)

  type Style = seq<Prop>

  function Names(s: Style): (r: seq<string>)
    ensures |r| == |s|
    ensures forall i | 0 <= i < |s| :: r[i] == s[i].name
  {
    if s == [] then [] else [s[0].name] + Names(s[1..])
  }

  /** A JavaScript object never has two properties of one name; every operation below keeps that. */
  predicate UniqueNames(s: Style)
  {
    forall i, j | 0 <= i < j < |s| :: s[i].name != s[j].name
  }

  /** Reading property `name`: `undefined` (None) when the style has no such property. */
  function Get(s: Style, name: string): (r: Option<string>)
    ensures r.None? <==> name !in Names(s)
  {
    if s == [] then None
    else if s[0].name == name then Some(s[0].value)
    else Get(s[1..], name)
  }

  /** A property that reads as `v` is a declaration of the style. */
  lemma {:induction false} GetAt(s: Style, name: string, v: string) returns (k: nat)
    requires Get(s, name) == Some(v)
    ensures k < |s| && s[k] == Prop(name, v)
  {
    if s[0].name == name {
      k := 0;
    } else {
      var j := GetAt(s[1..], name, v);
      k := j + 1;
    }
  }

  /** `s[name] = value`: an existing property is overwritten in place, a new one is appended. */
  function Put(s: Style, name: string, value: string): (r: Style)
    ensures Get(r, name) == Some(value)
  {
    if s == [] then [Prop(name, value)]
    else if s[0].name == name then [Prop(name, value)] + s[1..]
    else [s[0]] + Put(s[1..], name, value)
  }

  /** Assigning a property the style lacks appends it. */
  lemma {:induction false} PutNew(s: Style, name: string, value: string)
    requires forall k | 0 <= k < |s| :: s[k].name != name
    ensures Put(s, name, value) == s + [Prop(name, value)]
  {
    if s != [] {
      PutNew(s[1..], name, value);
      assert [s[0]] + (s[1..] + [Prop(name, value)]) == s + [Prop(name, value)];
    }
  }

  /** Assigning one property leaves every other property as it was. */
  lemma {:induction false} PutKeepsOthers(s: Style, name: string, value: string, other: string)
    requires other != name
    ensures Get(Put(s, name, value), other) == Get(s, other)
  {
    if s != [] && s[0].name != name {
      PutKeepsOthers(s[1..], name, value, other);
    }
  }

  /** An existing property keeps its place; a new one is created last. */
  lemma {:induction false} PutNames(s: Style, name: string, value: string)
    ensures Names(Put(s, name, value)) == if name in Names(s) then Names(s) else Names(s) + [name]
  {
    if s != [] && s[0].name != name {
      PutNames(s[1..], name, value);
      assert Names(s) == [s[0].name] + Names(s[1..]);
      assert Names(Put(s, name, value)) == [s[0].name] + Names(Put(s[1..], name, value));
    }
  }

  lemma PutUnique(s: Style, name: string, value: string)
    requires UniqueNames(s)
    ensures UniqueNames(Put(s, name, value))
  {
    PutNames(s, name, value);
    var r := Put(s, name, value);
    assert forall i | 0 <= i < |r| :: r[i].name == Names(r)[i];
  }

  /** `delete s[name]`. */
  function Remove(s: Style, name: string): (r: Style)
    ensures Get(r, name) == None
  {
    if s == [] then []
    else if s[0].name == name then Remove(s[1..], name)
    else [s[0]] + Remove(s[1..], name)
  }

  /** Deleting one property leaves every other property as it was. */
  lemma {:induction false} RemoveKeepsOthers(s: Style, name: string, other: string)
    requires other != name
    ensures Get(Remove(s, name), other) == Get(s, other)
  {
    if s != [] {
      RemoveKeepsOthers(s[1..], name, other);
    }
  }

  /** Deleting a property keeps the order of the remaining ones. */
  lemma {:induction false} RemoveNames(s: Style, name: string)
    ensures Names(Remove(s, name)) == Except(Names(s), {name})
  {
    if s != [] {
      RemoveNames(s[1..], name);
      assert Names(s) == [s[0].name] + Names(s[1..]);
      if s[0].name != name {
        assert Names(Remove(s, name)) == [s[0].name] + Names(Remove(s[1..], name));
      }
    }
  }

  lemma RemoveUnique(s: Style, name: string)
    requires UniqueNames(s)
    ensures UniqueNames(Remove(s, name))
  {
    if s != [] {
      RemoveUnique(s[1..], name);
      RemoveNames(s[1..], name);
      var rest := Remove(s[1..], name);
      assert forall n | n in Names(rest) :: n in Names(s[1..]);
      assert s[0].name !in Names(s[1..]);
    }
  }

  /** The object spread `{...a, ...b}`: `b`'s properties are assigned onto a copy of `a`, in `b`'s order. */
  function Merge(a: Style, b: Style): (r: Style)
    decreases |b|
  {
    if b == [] then a else Merge(Put(a, b[0].name, b[0].value), b[1..])
  }

  /** Spreading properties that are all new appends them in their order. */
  lemma {:induction false} MergeFresh(a: Style, b: Style)
    requires UniqueNames(b)
    requires forall k, j | 0 <= k < |b| && 0 <= j < |a| :: b[k].name != a[j].name
    ensures Merge(a, b) == a + b
    decreases |b|
  {
    if b != [] {
      PutNew(a, b[0].name, b[0].value);
      var a1 := a + [b[0]];
      assert forall k, j | 0 <= k < |b[1..]| && 0 <= j < |a1| :: b[1..][k].name != a1[j].name by {
        forall k, j | 0 <= k < |b[1..]| && 0 <= j < |a1| ensures b[1..][k].name != a1[j].name {
          assert b[1..][k] == b[k + 1];
          if j == |a| {
            assert a1[j] == b[0];
          } else {
            assert a1[j] == a[j];
          }
        }
      }
      MergeFresh(a1, b[1..]);
      AppendHead(a, b);
    }
  }

  /** Right-biased merge: a property given in `b` overwrites, one `b` omits persists. */
  lemma {:induction false} MergeGet(a: Style, b: Style, name: string)
    requires UniqueNames(b)
    ensures Get(Merge(a, b), name) == if name in Names(b) then Get(b, name) else Get(a, name)
    decreases |b|
  {
    if b != [] {
      var p := Put(a, b[0].name, b[0].value);
      MergeGet(p, b[1..], name);
      assert Names(b) == [b[0].name] + Names(b[1..]);
      if name != b[0].name {
        PutKeepsOthers(a, b[0].name, b[0].value, name);
      } else {
        assert name !in Names(b[1..]);
      }
    }
  }

  /** The spread keeps `a`'s properties first, in their order. */
  lemma {:induction false} MergeKeepsOrder(a: Style, b: Style)
    ensures |Merge(a, b)| >= |a| && Names(Merge(a, b))[..|a|] == Names(a)
    decreases |b|
  {
    if b != [] {
      var p := Put(a, b[0].name, b[0].value);
      PutNames(a, b[0].name, b[0].value);
      MergeKeepsOrder(p, b[1..]);
      var ns := Names(Merge(p, b[1..]));
      assert Names(Merge(a, b)) == ns;
      assert ns[..|a|] == ns[..|p|][..|a|];
    }
  }

  lemma {:induction false} MergeUnique(a: Style, b: Style)
    requires UniqueNames(a)
    ensures UniqueNames(Merge(a, b))
    decreases |b|
  {
    if b != [] {
      PutUnique(a, b[0].name, b[0].value);
      MergeUnique(Put(a, b[0].name, b[0].value), b[1..]);
    }
  }

  /** `if (!s[name]) s[name] = value`, which is also what `s[name] = s[name] || value` does. */
  function SetDefault(s: Style, name: string, value: string): (r: Style)
    ensures Get(r, name) == if Truthy(Get(s, name)) then Get(s, name) else Some(value)
  {
    if Truthy(Get(s, name)) then s else Put(s, name, value)
  }

  predicate IsUpper(c: char)
  {
    'A' <= c <= 'Z'
  }

  predicate IsLower(c: char)
  {
    'a' <= c <= 'z'
  }

  /** `toLowerCase` on one character of a property name (the names are ASCII). */
  function Lower(c: char): char
  {
    if IsUpper(c) then (c as int + 32) as char else c
  }

  function Upper(c: char): char
  {
    if IsLower(c) then (c as int - 32) as char else c
  }

  /** `name.replace(/([A-Z])/g, "-$1").toLowerCase()`: camelCase to kebab-case. */
  function KebabCase(name: string): string
  {
    if name == [] then []
    else (if IsUpper(name[0]) then ['-', Lower(name[0])] else [Lower(name[0])]) + KebabCase(name[1..])
  }

  /** The reverse translation: a hyphen followed by a lower-case letter becomes that letter in upper case. */
  function CamelCase(property: string): string
  {
    if property == [] then []
    else if |property| >= 2 && property[0] == '-' && IsLower(property[1]) then [Upper(property[1])] + CamelCase(property[2..])
    else [property[0]] + CamelCase(property[1..])
  }

  /** The emitted property name carries no upper-case letter. */
  lemma {:induction false} KebabCaseIsLowerCase(name: string)
    ensures forall i | 0 <= i < |KebabCase(name)| :: !IsUpper(KebabCase(name)[i])
  {
    if name != [] {
      KebabCaseIsLowerCase(name[1..]);
    }
  }

  /** Every style key is a camelCase identifier without hyphens; for those, kebab-case loses nothing. */
  lemma {:induction false} KebabCaseRoundTrip(name: string)
    requires forall i | 0 <= i < |name| :: name[i] != '-'
    ensures CamelCase(KebabCase(name)) == name
  {
    if name != [] {
      KebabCaseRoundTrip(name[1..]);
      var head := if IsUpper(name[0]) then ['-', Lower(name[0])] else [Lower(name[0])];
      assert KebabCase(name) == head + KebabCase(name[1..]);
      if IsUpper(name[0]) {
        assert (head + KebabCase(name[1..]))[2..] == KebabCase(name[1..]);
      } else {
        assert (head + KebabCase(name[1..]))[1..] == KebabCase(name[1..]);
      }
    }
  }
}
