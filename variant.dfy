/**
  The Godot values the statement builders of sqlite_connection.cpp take
  apart: a `Variant` as a tagged value, a `Dictionary` as its entries in
  insertion order, and the `String` operations the builders use (`to_lower`,
  `begins_with`, `split`, joining with a separator).
 */
module GodotVariant {

  /** `Variant::Type`, for the kinds of value the builders tell apart. */
  datatype VariantType = NIL | BOOL | INT | FLOAT | STRING | ARRAY | DICTIONARY

  /**
    A Variant. A float keeps only whether it is zero and its printed form:
    floating point itself is not modelled. Dictionary keys are Strings.
   */
  datatype Variant =
    | Nil
    | Bool(b: bool)
    | Int(i: int)
    | Float(isZero: bool, text: string)
    | Str(s: string)
    | Arr(items: seq<Variant>)
    | Dict(entries: seq<(string, Variant)>)

  /** A Godot Dictionary: its entries in insertion order. */
  type Dictionary = seq<(string, Variant)>

  /** `get_type()` */
  function TypeOf(v: Variant): (t: VariantType)
    ensures t == STRING <==> v.Str?
    ensures t == DICTIONARY <==> v.Dict?
    ensures t == ARRAY <==> v.Arr?
  {
    match v
    case Nil => NIL
    case Bool(_) => BOOL
    case Int(_) => INT
    case Float(_, _) => FLOAT
    case Str(_) => STRING
    case Arr(_) => ARRAY
    case Dict(_) => DICTIONARY
  }

  /** `keys()`: the keys in insertion order. */
  function Keys(d: Dictionary): (ks: seq<string>)
    ensures |ks| == |d| && forall i | 0 <= i < |d| :: ks[i] == d[i].0
  {
    seq(|d|, i requires 0 <= i < |d| => d[i].0)
  }

  /** `values()`: the values in insertion order. */
  function Values(d: Dictionary): (vs: seq<Variant>)
    ensures |vs| == |d| && forall i | 0 <= i < |d| :: vs[i] == d[i].1
  {
    seq(|d|, i requires 0 <= i < |d| => d[i].1)
  }

  /** `has(key)` */
  predicate Has(d: Dictionary, key: string)
  {
    key in Keys(d)
  }

  /** `get(key, default)`, and `d[key]` with Nil as the default. */
  function Get(d: Dictionary, key: string, default: Variant): (v: Variant)
    ensures !Has(d, key) ==> v == default
    ensures Has(d, key) ==> exists i | 0 <= i < |d| :: d[i] == (key, v)
  {
    if d == [] then default
    else if d[0].0 == key then d[0].1
    else
      assert Has(d, key) ==> Has(d[1..], key) by {
        if Has(d, key) {
          var i :| 0 <= i < |d| && Keys(d)[i] == key;
          assert Keys(d[1..])[i - 1] == key;
        }
      }
      assert Has(d[1..], key) ==> Has(d, key) by {
        if Has(d[1..], key) {
          var i :| 0 <= i < |d| - 1 && Keys(d[1..])[i] == key;
          assert Keys(d)[i + 1] == key;
        }
      }
      Get(d[1..], key, default)
  }

  /** A Godot Dictionary holds each key once. */
  predicate DistinctKeys(d: Dictionary)
  {
    forall i, j | 0 <= i < j < |d| :: d[i].0 != d[j].0
  }

  /** With distinct keys, looking up the i-th key finds the i-th value: `d[d.keys()[i]]` is `d.values()[i]`. */
  lemma {:induction false} GetEntry(d: Dictionary, i: nat, default: Variant)
    requires DistinctKeys(d) && i < |d|
    ensures Get(d, d[i].0, default) == d[i].1
  {
    if i > 0 {
      assert d[0].0 != d[i].0;
      assert d[1..][i - 1] == d[i];
      GetEntry(d[1..], i - 1, default);
    }
  }

  /** `d[key]` of a const Dictionary. */
  function At(d: Dictionary, key: string): Variant
  {
    Get(d, key, Nil)
  }

  /** The conversion of a Variant to bool (`booleanize`): a value is true unless it is zero or empty. */
  predicate Truthy(v: Variant)
  {
    match v
    case Nil => false
    case Bool(b) => b
    case Int(i) => i != 0
    case Float(z, _) => !z
    case Str(s) => s != []
    case Arr(a) => a != []
    case Dict(e) => e != []
  }

  /** The conversion of a Variant to Dictionary: a Dictionary's entries, otherwise the empty Dictionary. */
  function AsDict(v: Variant): Dictionary
  {
    if v.Dict? then v.entries else []
  }

  /** The conversion of a Variant to Array: an Array's items, otherwise the empty Array. */
  function AsArray(v: Variant): seq<Variant>
  {
    if v.Arr? then v.items else []
  }

  function DigitChar(d: nat): (c: char)
    requires d < 10
  {
    "0123456789"[d]
  }

  /** The decimal digits of n. */
  function NatText(n: nat): (s: string)
    ensures |s| >= 1
  {
    if n < 10 then [DigitChar(n)] else NatText(n / 10) + [DigitChar(n % 10)]
  }

  /** `itos`: a decimal integer with a leading minus sign when it is negative. */
  function IntText(i: int): (s: string)
  {
    if i < 0 then "-" + NatText(-i) else NatText(i)
  }

  /**
    The conversion of a Variant to String: a String is itself, a number its
    decimal form, a bool "true" or "false", Nil "<null>"; an Array is its
    items between brackets and a Dictionary its entries between braces.
   */
  function Stringify(v: Variant): (s: string)
    ensures v.Str? ==> s == v.s
    decreases v, 1
  {
    match v
    case Nil => "<null>"
    case Bool(b) => if b then "true" else "false"
    case Int(i) => IntText(i)
    case Float(_, t) => t
    case Str(s) => s
    case Arr(a) => "[" + ItemsText(v, |a|) + "]"
    case Dict(e) => "{ " + EntriesText(v, |e|) + " }"
  }

  /** The first n items of the Array v, separated by ", ". */
  function ItemsText(v: Variant, n: nat): string
    requires v.Arr? && n <= |v.items|
    decreases v, 0, n
  {
    if n == 0 then ""
    else if n == 1 then Stringify(v.items[0])
    else ItemsText(v, n - 1) + ", " + Stringify(v.items[n - 1])
  }

  /** The first n entries of the Dictionary v as `key: value`, separated by ", ". */
  function EntriesText(v: Variant, n: nat): string
    requires v.Dict? && n <= |v.entries|
    decreases v, 0, n
  {
    if n == 0 then ""
    else
      assert v.entries[n - 1].1 < v.entries[n - 1];
      var last := v.entries[n - 1].0 + ": " + Stringify(v.entries[n - 1].1);
      if n == 1 then last else EntriesText(v, n - 1) + ", " + last
  }

  /** `to_lower()` on ASCII letters. */
  function Lower(s: string): (r: string)
    ensures |r| == |s|
    ensures forall i | 0 <= i < |s| :: r[i] == LowerChar(s[i])
  {
    seq(|s|, i requires 0 <= i < |s| => LowerChar(s[i]))
  }

  function LowerChar(c: char): char
  {
    if 'A' <= c <= 'Z' then (c as int + 32) as char else c
  }

  /** `begins_with(prefix)` */
  predicate StartsWith(s: string, prefix: string)
  {
    |prefix| <= |s| && s[..|prefix|] == prefix
  }

  /** The strings of xs with sep between each two, as the builders' loops form them. */
  function Joined(xs: seq<string>, sep: string): string
  {
    if xs == [] then ""
    else if |xs| == 1 then xs[0]
    else Joined(xs[..|xs| - 1], sep) + sep + xs[|xs| - 1]
  }

  /** The strings of xs, one after another. */
  function Concat(xs: seq<string>): string
  {
    if xs == [] then "" else Concat(xs[..|xs| - 1]) + xs[|xs| - 1]
  }

  /** How often c occurs in s. */
  function Count(c: char, s: string): nat
  {
    if s == [] then 0 else Count(c, s[..|s| - 1]) + (if s[|s| - 1] == c then 1 else 0)
  }

  /**
    `split(sep)` for a one-character separator, keeping empty parts: the
    pieces of s between occurrences of sep.
   */
  function Split(s: string, sep: char): (parts: seq<string>)
    ensures |parts| >= 1
  {
    if s == [] then [""]
    else
      var parts := Split(s[..|s| - 1], sep);
      if s[|s| - 1] == sep then parts + [""]
      else parts[..|parts| - 1] + [parts[|parts| - 1] + [s[|s| - 1]]]
  }

  lemma CountAppend(c: char, s: string, t: string)
    ensures Count(c, s + t) == Count(c, s) + Count(c, t)
    decreases |t|
  {
    if t != [] {
      assert (s + t)[..|s + t| - 1] == s + t[..|t| - 1];
      assert (s + t)[|s + t| - 1] == t[|t| - 1];
      CountAppend(c, s, t[..|t| - 1]);
    } else {
      assert s + t == s;
    }
  }

  /** A string splits into one more part than it has separators, and none of the parts has one. */
  lemma {:induction false} SplitParts(s: string, sep: char)
    ensures |Split(s, sep)| == Count(sep, s) + 1
    ensures forall i | 0 <= i < |Split(s, sep)| :: sep !in Split(s, sep)[i]
  {
    if s != [] {
      SplitParts(s[..|s| - 1], sep);
    }
  }

  /** Joining the parts of a split with its separator gives back the string. */
  lemma {:induction false} JoinedSplit(s: string, sep: char)
    ensures Joined(Split(s, sep), [sep]) == s
  {
    if s != [] {
      var init := s[..|s| - 1];
      var last := s[|s| - 1];
      JoinedSplit(init, sep);
      assert s == init + [last];
      if last == sep {
        JoinedNewPart(Split(init, sep), init, sep);
      } else {
        JoinedExtendPart(Split(init, sep), init, sep, last);
      }
    }
  }

  /** A separator at the end of the string starts a new, empty part. */
  lemma JoinedNewPart(parts: seq<string>, init: string, sep: char)
    requires |parts| >= 1 && Joined(parts, [sep]) == init
    ensures Joined(parts + [""], [sep]) == init + [sep]
  {
    JoinedLast(parts, "", [sep]);
    assert init + [sep] + "" == init + [sep];
  }

  /** Any other character at the end of the string goes to the last part. */
  lemma JoinedExtendPart(parts: seq<string>, init: string, sep: char, last: char)
    requires |parts| >= 1 && Joined(parts, [sep]) == init
    ensures Joined(parts[..|parts| - 1] + [parts[|parts| - 1] + [last]], [sep]) == init + [last]
  {
    var front, x := parts[..|parts| - 1], parts[|parts| - 1];
    LastApart(parts);
    JoinedLast(front, x, [sep]);
    JoinedLast(front, x + [last], [sep]);
    AppendAssoc(if front == [] then "" else Joined(front, [sep]) + [sep], x, [last]);
  }

  lemma LastApart<T>(s: seq<T>)
    requires |s| >= 1
    ensures s == s[..|s| - 1] + [s[|s| - 1]]
  {
  }

  lemma AppendAssoc<T>(a: seq<T>, b: seq<T>, c: seq<T>)
    ensures a + (b + c) == a + b + c
  {
  }

  /** Replacing the last string of a join changes only the end of it. */
  lemma JoinedLast(front: seq<string>, x: string, sep: string)
    ensures Joined(front + [x], sep) == (if front == [] then "" else Joined(front, sep) + sep) + x
  {
    assert (front + [x])[..|front|] == front;
  }

  /** Splitting a join of parts without the separator gives back the parts. */
  lemma {:induction false} SplitJoined(xs: seq<string>, sep: char)
    requires xs != []
    requires forall i | 0 <= i < |xs| :: sep !in xs[i]
    ensures Split(Joined(xs, [sep]), sep) == xs
    decreases |xs|
  {
    if |xs| == 1 {
      SplitFree(xs[0], sep);
    } else {
      var front := xs[..|xs| - 1];
      var x := xs[|xs| - 1];
      SplitJoined(front, sep);
      SplitAfterSep(Joined(front, [sep]), x, sep);
      assert front + [x] == xs;
      JoinedLast(front, x, [sep]);
    }
  }

  lemma {:induction false} SplitFree(x: string, sep: char)
    requires sep !in x
    ensures Split(x, sep) == [x]
  {
    if x != [] {
      SplitFree(x[..|x| - 1], sep);
      assert x[..|x| - 1] + [x[|x| - 1]] == x;
    }
  }

  /** Splitting s, a separator and a part without separator adds that part to the split of s. */
  lemma {:induction false} SplitAfterSep(s: string, x: string, sep: char)
    requires sep !in x
    ensures Split(s + [sep] + x, sep) == Split(s, sep) + [x]
    decreases |x|
  {
    if x == [] {
      assert (s + [sep] + x)[..|s + [sep] + x| - 1] == s;
    } else {
      var y := x[..|x| - 1];
      SplitAfterSep(s, y, sep);
      assert (s + [sep] + x)[..|s + [sep] + x| - 1] == s + [sep] + y;
      assert y + [x[|x| - 1]] == x;
    }
  }

  /**
    What a loop that appends xs[k] and then, unless k is the last index, sep
    has built after its first i rounds.
   */
  function JoinedUpTo(xs: seq<string>, i: nat, sep: string): string
    requires i <= |xs|
  {
    if i == 0 then "" else Joined(xs[..i], sep) + (if i < |xs| then sep else "")
  }

  lemma JoinedUpToNext(xs: seq<string>, i: nat, sep: string)
    requires i < |xs|
    ensures JoinedUpTo(xs, i + 1, sep) == JoinedUpTo(xs, i, sep) + xs[i] + (if i + 1 < |xs| then sep else "")
  {
    assert xs[..i + 1] == xs[..i] + [xs[i]];
    JoinedLast(xs[..i], xs[i], sep);
  }

  lemma JoinedUpToAll(xs: seq<string>, sep: string)
    ensures JoinedUpTo(xs, |xs|, sep) == Joined(xs, sep)
  {
    assert xs[..|xs|] == xs;
  }

  /** The occurrences of c in all of xs. */
  function CountAll(c: char, xs: seq<string>): nat
  {
    if xs == [] then 0 else CountAll(c, xs[..|xs| - 1]) + Count(c, xs[|xs| - 1])
  }

  /** A separator without c adds no occurrences of c to a join. */
  lemma {:induction false} CountJoined(c: char, xs: seq<string>, sep: string)
    requires c !in sep
    ensures Count(c, Joined(xs, sep)) == CountAll(c, xs)
    decreases |xs|
  {
    if |xs| == 1 {
      assert xs[..0] == [];
    } else if |xs| > 1 {
      var front := xs[..|xs| - 1];
      CountJoined(c, front, sep);
      CountAbsent(c, sep);
      CountAppend(c, Joined(front, sep), sep);
      CountAppend(c, Joined(front, sep) + sep, xs[|xs| - 1]);
      if |front| == 1 {
        assert front[..0] == [];
      }
    }
  }

  lemma {:induction false} CountAbsent(c: char, s: string)
    requires c !in s
    ensures Count(c, s) == 0
  {
    if s != [] {
      CountAbsent(c, s[..|s| - 1]);
    }
  }

  /** Strictly ascending, hence without repetitions. */
  predicate Ascending(s: seq<nat>)
  {
    forall i, j | 0 <= i < j < |s| :: s[i] < s[j]
  }

  /** The marked positions, in order. */
  function Marked(fs: seq<bool>): (ks: seq<nat>)
    ensures |ks| <= |fs|
  {
    if fs == [] then [] else Marked(fs[..|fs| - 1]) + (if fs[|fs| - 1] then [|fs| - 1] else [])
  }

  /** The elements at the marked positions, in order. */
  function Picked<T>(xs: seq<T>, fs: seq<bool>): (ys: seq<T>)
    requires |xs| == |fs|
    ensures |ys| == |Marked(fs)|
  {
    if fs == [] then []
    else Picked(xs[..|xs| - 1], fs[..|fs| - 1]) + (if fs[|fs| - 1] then [xs[|xs| - 1]] else [])
  }

  /** One more position either adds its element to the picked ones or leaves them as they are. */
  lemma PickedNext<T>(xs: seq<T>, fs: seq<bool>, i: nat)
    requires |xs| == |fs| && i < |fs|
    ensures Picked(xs[..i + 1], fs[..i + 1]) == Picked(xs[..i], fs[..i]) + (if fs[i] then [xs[i]] else [])
  {
    assert xs[..i + 1][..i] == xs[..i];
    assert fs[..i + 1][..i] == fs[..i];
  }

  lemma PickedAll<T>(xs: seq<T>, fs: seq<bool>)
    requires |xs| == |fs|
    ensures Picked(xs[..|xs|], fs[..|fs|]) == Picked(xs, fs)
  {
    assert xs[..|xs|] == xs;
    assert fs[..|fs|] == fs;
  }

  /** The marked positions are exactly those whose flag is set. */
  lemma {:induction false} MarkedExactly(fs: seq<bool>)
    ensures forall k: nat :: k in Marked(fs) <==> k < |fs| && fs[k]
  {
    if fs != [] {
      MarkedExactly(fs[..|fs| - 1]);
    }
  }

  /** The marked positions ascend, so each occurs once. */
  lemma {:induction false} MarkedAscending(fs: seq<bool>)
    ensures Ascending(Marked(fs))
    ensures forall k | 0 <= k < |Marked(fs)| :: Marked(fs)[k] < |fs|
  {
    if fs != [] {
      MarkedAscending(fs[..|fs| - 1]);
    }
  }

  /** The picked elements are the elements at the marked positions. */
  lemma {:induction false} PickedAt<T>(xs: seq<T>, fs: seq<bool>)
    requires |xs| == |fs|
    ensures forall k | 0 <= k < |Marked(fs)| :: Marked(fs)[k] < |xs| && Picked(xs, fs)[k] == xs[Marked(fs)[k]]
  {
    if fs != [] {
      PickedAt(xs[..|xs| - 1], fs[..|fs| - 1]);
      MarkedAscending(fs[..|fs| - 1]);
    }
  }
}
