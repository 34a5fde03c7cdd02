/** Flattening of a raw configuration value into the single string the store
    keeps (NamingData.BreakupValue). */
module Breakup {

  /** The shapes a raw value can take at the store's boundary. `Arr` is a .NET
      array, `Enum` any other enumerable that is not a string, and `Scalar`
      any other object, represented by the text its ToString() gives. */
  datatype Raw =
    | Null
    | Str(s: string)
    | Arr(elems: seq<Raw>)
    | Enum(elems: seq<Raw>)
    | Scalar(text: string)

  /** Placed before every non-null array element at a positive index. */
  const ArraySeparator: string := ", "
  /** Placed before every non-null element of another enumerable at a positive index. */
  const EnumSeparator: string := ","

  /** The string a raw value flattens to. */
  function Flatten(v: Raw): string
    decreases v, 1
  {
    match v
    case Null => ""
    case Str(s) => s
    case Arr(xs) => Joined(xs, ArraySeparator)
    case Enum(xs) => Joined(xs, EnumSeparator)
    case Scalar(t) => t
  }

  /** What the elements of one container contribute, in order. */
  function Joined(xs: seq<Raw>, sep: string): string
    decreases xs, 0
  {
    if xs == [] then ""
    else Joined(xs[..|xs| - 1], sep) + Piece(xs[|xs| - 1], |xs| - 1, sep)
  }

  /** What the element `x` at index `i` of a container contributes: nothing
      when it is null, otherwise its flattening, preceded by the separator
      when the index is positive. */
  function Piece(x: Raw, i: nat, sep: string): string
    decreases x, 2
  {
    if x == Null then "" else (if i > 0 then sep else "") + Flatten(x)
  }

  /** Appends the flattening of `value` to `result`, as the source does
      through its `ref` parameter. */
  method BreakupValue(result: string, value: Raw) returns (r: string)
    ensures r == result + Flatten(value)
    decreases value
  {
    r := result;
    if value == Null {
      return;
    }
    match value
    case Str(s) =>
      r := r + s;
    case Arr(container) =>
      for aI := 0 to |container|
        invariant r == result + Joined(container[..aI], ArraySeparator)
      {
        if container[aI] != Null {
          if aI > 0 {
            r := r + ArraySeparator;
          }
          r := BreakupValue(r, container[aI]);
        }
        JoinedStep(container, aI, ArraySeparator);
      }
      assert container[..|container|] == container;
    case Enum(items) =>
      var index := 0;
      while index < |items|
        invariant index <= |items|
        invariant r == result + Joined(items[..index], EnumSeparator)
      {
        if items[index] != Null {
          if index > 0 {
            r := r + EnumSeparator;
          }
          r := BreakupValue(r, items[index]);
        }
        JoinedStep(items, index, EnumSeparator);
        index := index + 1;
      }
      assert items[..|items|] == items;
    case Scalar(t) =>
      r := r + t;
  }

  /** Extending the prefix handled so far by one element adds that element's piece. */
  lemma JoinedStep(xs: seq<Raw>, i: nat, sep: string)
    requires i < |xs|
    ensures Joined(xs[..i + 1], sep) == Joined(xs[..i], sep) + Piece(xs[i], i, sep)
  {
    assert xs[..i + 1][..i] == xs[..i];
  }

  // ---------------------------------------------------------------------
  // A reference reading of the separator rule

  /** The non-null elements of a container, in their order. */
  function NonNull(xs: seq<Raw>): seq<Raw>
  {
    if xs == [] then []
    else NonNull(xs[..|xs| - 1]) + (if xs[|xs| - 1] == Null then [] else [xs[|xs| - 1]])
  }

  /** The flattening of each element. */
  function Flattened(xs: seq<Raw>): seq<string>
  {
    seq(|xs|, i requires 0 <= i < |xs| => Flatten(xs[i]))
  }

  /** The usual join: the separator stands between consecutive strings only. */
  function JoinStrings(ss: seq<string>, sep: string): string
  {
    if ss == [] then ""
    else if |ss| == 1 then ss[0]
    else JoinStrings(ss[..|ss| - 1], sep) + sep + ss[|ss| - 1]
  }

  lemma {:induction false} NonNullEmpty(xs: seq<Raw>, i: nat)
    requires NonNull(xs) == [] && i < |xs|
    ensures xs[i] == Null
  {
    var n := |xs| - 1;
    if i < n {
      assert NonNull(xs[..n]) == [];
      NonNullEmpty(xs[..n], i);
    }
  }

  lemma FlattenedSnoc(xs: seq<Raw>, x: Raw)
    ensures Flattened(xs + [x]) == Flattened(xs) + [Flatten(x)]
  {
  }

  lemma JoinStringsSnoc(ss: seq<string>, s: string, sep: string)
    requires ss != []
    ensures JoinStrings(ss + [s], sep) == JoinStrings(ss, sep) + sep + s
  {
    assert (ss + [s])[..|ss|] == ss;
  }

  /** The separator that a leading null earns for the first non-null element. */
  function Lead(xs: seq<Raw>, sep: string): string
  {
    if xs != [] && xs[0] == Null && NonNull(xs) != [] then sep else ""
  }

  /** A container's contribution is the usual join of its non-null elements'
      flattenings, with one extra separator in front exactly when the first
      element is null and some later one is not: the separator is chosen by
      the element's index, not by whether anything was emitted before it. */
  lemma {:induction false} JoinedSkipsNulls(xs: seq<Raw>, sep: string)
    ensures Joined(xs, sep) == Lead(xs, sep) + JoinStrings(Flattened(NonNull(xs)), sep)
  {
    if xs == [] {
      return;
    }
    var n := |xs| - 1;
    var ys, x := xs[..n], xs[n];
    assert xs == ys + [x];
    JoinedSkipsNulls(ys, sep);
    if x == Null {
      assert NonNull(xs) == NonNull(ys);
      assert Joined(xs, sep) == Joined(ys, sep);
      assert Lead(xs, sep) == Lead(ys, sep) by {
        if ys != [] {
          assert xs[0] == ys[0];
        }
      }
    } else if ys == [] {
      assert NonNull(xs) == [x];
      FlattenedSnoc([], x);
    } else {
      assert NonNull(xs) == NonNull(ys) + [x];
      FlattenedSnoc(NonNull(ys), x);
      assert Joined(xs, sep) == Joined(ys, sep) + (sep + Flatten(x));
      if NonNull(ys) == [] {
        NonNullEmpty(ys, 0);
        assert xs[0] == ys[0];
        assert Lead(xs, sep) == sep;
        assert Joined(ys, sep) == "";
      } else {
        JoinStringsSnoc(Flattened(NonNull(ys)), Flatten(x), sep);
        assert xs[0] == ys[0];
        assert Lead(xs, sep) == Lead(ys, sep);
      }
    }
  }

  lemma {:induction false} NonNullKeepsAll(xs: seq<Raw>)
    requires forall i :: 0 <= i < |xs| ==> xs[i] != Null
    ensures NonNull(xs) == xs
  {
    if xs != [] {
      NonNullKeepsAll(xs[..|xs| - 1]);
    }
  }

  /** Without null elements an array flattens to the ", "-join of its
      elements' flattenings, and any other enumerable to their ","-join. */
  lemma FlattenWithoutNulls(xs: seq<Raw>)
    requires forall i :: 0 <= i < |xs| ==> xs[i] != Null
    ensures Flatten(Arr(xs)) == JoinStrings(Flattened(xs), ", ")
    ensures Flatten(Enum(xs)) == JoinStrings(Flattened(xs), ",")
  {
    NonNullKeepsAll(xs);
    JoinedSkipsNulls(xs, ArraySeparator);
    JoinedSkipsNulls(xs, EnumSeparator);
  }

  // ---------------------------------------------------------------------
  // Worked cases of the rules

  /** An array of "x", "y", "z" gives "x, y, z"; the same elements in another
      enumerable give "x,y,z". */
  lemma SeparatorByContainerKind()
    ensures Flatten(Arr([Str("x"), Str("y"), Str("z")])) == "x, y, z"
    ensures Flatten(Enum([Str("x"), Str("y"), Str("z")])) == "x,y,z"
  {
    var xs := [Str("x"), Str("y"), Str("z")];
    assert xs[..2] == [Str("x"), Str("y")];
    assert xs[..2][..1] == [Str("x")];
    assert [Str("x")][..0] == [];
  }

  /** Nesting: the separator is the one of the immediately enclosing container. */
  lemma NestedSeparators()
    ensures Flatten(Arr([Str("p"), Enum([Str("q"), Str("r")])])) == "p, q,r"
  {
    FlattenWithoutNulls([Str("q"), Str("r")]);
    FlattenWithoutNulls([Str("p"), Enum([Str("q"), Str("r")])]);
  }

  /** A leading null still earns the next element its separator. */
  lemma LeadingNullKeepsSeparator()
    ensures Flatten(Arr([Null, Str("a")])) == ", a"
    ensures Flatten(Enum([Null, Null, Str("a")])) == ",a"
  {
    JoinedSkipsNulls([Null, Str("a")], ArraySeparator);
    JoinedSkipsNulls([Null, Null, Str("a")], EnumSeparator);
  }
}
