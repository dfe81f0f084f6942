/**
 * Strings as the JavaScript code of the system treats them: truthiness of an
 * optional string field, `Array.prototype.join`, and `String.prototype.split`
 * with a non-empty separator.
 *
 * An optional string field (`undefined`, `null` or a value) is written here as a
 * plain string with `""` for the absent cases: every use of an optional field in the
 * modelled code either tests its truthiness, for which all three are falsy, or joins
 * it, and `join` renders `undefined` and `null` as `""`. Fields the types declare as
 * required strings, such as a customer's first and last name, are plain strings.
 */
module Text {
  import opened Seqs

  /** JavaScript truthiness of a string. */
  predicate Truthy(s: string) {
    s != ""
  }

  /** The truthy strings of `xs`, in their order: what a run of `if (x) parts.push(x)` collects. */
  function NonEmpty(xs: seq<string>): seq<string>
  {
    if xs == [] then []
    else (if Truthy(xs[0]) then [xs[0]] else []) + NonEmpty(xs[1..])
  }

  /** A string is collected exactly when it is one of the fields and truthy, and then as
      many times as it occurs among them (equal fields are not merged); nothing is collected
      exactly when no field is truthy. */
  lemma {:induction false} NonEmptyMembers(xs: seq<string>)
    ensures forall s :: multiset(NonEmpty(xs))[s] == if Truthy(s) then multiset(xs)[s] else 0
    ensures forall s :: s in NonEmpty(xs) <==> s in xs && Truthy(s)
    ensures NonEmpty(xs) == [] <==> forall s :: s in xs ==> !Truthy(s)
    decreases |xs|
  {
    if xs != [] {
      NonEmptyMembers(xs[1..]);
      assert xs == [xs[0]] + xs[1..];
    }
  }

  /** The truthy strings keep the order they had among all the fields. */
  lemma {:induction false} NonEmptyKeepsOrder(xs: seq<string>)
    ensures IsSubsequence(NonEmpty(xs), xs)
    decreases |xs|
  {
    if xs != [] {
      NonEmptyKeepsOrder(xs[1..]);
      if !Truthy(xs[0]) {
        assert NonEmpty(xs) == NonEmpty(xs[1..]);
        SubsequenceCons(NonEmpty(xs[1..]), xs[1..], xs[0]);
        assert [xs[0]] + xs[1..] == xs;
      } else {
        assert NonEmpty(xs) == [xs[0]] + NonEmpty(xs[1..]);
        assert NonEmpty(xs)[0] == xs[0] && NonEmpty(xs)[1..] == NonEmpty(xs[1..]);
      }
    }
  }

  /** Collecting over two runs of fields collects over each in turn. */
  lemma {:induction false} NonEmptyAppend(a: seq<string>, b: seq<string>)
    ensures NonEmpty(a + b) == NonEmpty(a) + NonEmpty(b)
    decreases |a|
  {
    if a == [] {
      assert a + b == b;
    } else {
      NonEmptyAppend(a[1..], b);
      assert (a + b)[1..] == a[1..] + b;
    }
  }

  /** One more `if (x) parts.push(x)`. */
  lemma NonEmptyPush(xs: seq<string>, x: string)
    ensures NonEmpty(xs + [x]) == NonEmpty(xs) + if Truthy(x) then [x] else []
  {
    NonEmptyAppend(xs, [x]);
    assert NonEmpty([x]) == (if Truthy(x) then [x] else []) + NonEmpty([]);
  }

  /** `parts.join(sep)`. */
  function Join(parts: seq<string>, sep: string): string
  {
    if |parts| == 0 then ""
    else if |parts| == 1 then parts[0]
    else parts[0] + sep + Join(parts[1..], sep)
  }

  /** Joining in front of at least one more part puts exactly one separator in between. */
  lemma JoinCons(p: string, parts: seq<string>, sep: string)
    requires |parts| > 0
    ensures Join([p] + parts, sep) == p + sep + Join(parts, sep)
  {
    assert ([p] + parts)[1..] == parts;
  }

  /** `sep` occurs in `s` starting at position `i`. */
  predicate SepAt(s: string, sep: string, i: nat) {
    i + |sep| <= |s| && s[i..i + |sep|] == sep
  }

  /** `s.indexOf(sep, from)`: the first position at or after `from` where `sep` occurs. */
  function IndexOf(s: string, sep: string, from: nat): (r: Option<nat>)
    ensures r.Some? ==> from <= r.value && SepAt(s, sep, r.value)
    ensures r.Some? ==> forall j :: from <= j < r.value ==> !SepAt(s, sep, j)
    ensures r.None? ==> forall j :: from <= j ==> !SepAt(s, sep, j)
    decreases |s| - from
  {
    if from + |sep| > |s| then None
    else if SepAt(s, sep, from) then Some(from)
    else IndexOf(s, sep, from + 1)
  }

  /** `s.split(sep)` for a non-empty `sep`: the pieces between successive non-overlapping occurrences. */
  function Split(s: string, sep: string): (r: seq<string>)
    requires |sep| > 0
    ensures |r| >= 1
    decreases |s|
  {
    match IndexOf(s, sep, 0)
    case None => [s]
    case Some(i) => [s[..i]] + Split(s[i + |sep|..], sep)
  }

  /** Joining the pieces of a split with the same separator gives back the original string. */
  lemma {:induction false} JoinSplit(s: string, sep: string)
    requires |sep| > 0
    ensures Join(Split(s, sep), sep) == s
    decreases |s|
  {
    var found := IndexOf(s, sep, 0);
    if found.Some? {
      var i := found.value;
      var rest := s[i + |sep|..];
      var pieces := Split(rest, sep);
      JoinSplit(rest, sep);
      assert Split(s, sep) == [s[..i]] + pieces;
      JoinCons(s[..i], pieces, sep);
      assert s == s[..i] + s[i..i + |sep|] + rest;
    }
  }

  /** In `p + sep` the first occurrence of `sep` is the one appended: `p` can be followed by
      `sep` without the two forming an earlier occurrence. */
  predicate Delimits(p: string, sep: string) {
    forall j :: 0 <= j < |p| ==> !SepAt(p + sep, sep, j)
  }

  /** A string followed by `sep` and anything else is cut exactly after it. */
  lemma SplitAfterDelimited(p: string, sep: string, rest: string)
    requires |sep| > 0 && Delimits(p, sep)
    ensures Split(p + sep + rest, sep) == [p] + Split(rest, sep)
  {
    var s := p + sep + rest;
    forall j | 0 <= j < |p|
      ensures !SepAt(s, sep, j)
    {
      assert !SepAt(p + sep, sep, j);
      assert s[j..j + |sep|] == (p + sep)[j..j + |sep|];
    }
    assert s[|p|..|p| + |sep|] == sep;
    assert SepAt(s, sep, |p|);
    assert IndexOf(s, sep, 0) == Some(|p|);
    assert s[..|p|] == p;
    assert s[|p| + |sep|..] == rest;
  }

  /** A delimited string holds no occurrence of `sep`, so splitting leaves it whole. */
  lemma SplitDelimited(p: string, sep: string)
    requires |sep| > 0 && Delimits(p, sep)
    ensures Split(p, sep) == [p]
  {
    forall j | 0 <= j
      ensures !SepAt(p, sep, j)
    {
      if j + |sep| <= |p| {
        assert (p + sep)[j..j + |sep|] == p[j..j + |sep|];
        assert !SepAt(p + sep, sep, j);
      }
    }
    assert IndexOf(p, sep, 0).None?;
  }

  /** Splitting a join gives back the parts, when no part runs into the separator. */
  lemma {:induction false} SplitJoin(parts: seq<string>, sep: string)
    requires |sep| > 0 && |parts| > 0
    requires forall k :: 0 <= k < |parts| ==> Delimits(parts[k], sep)
    ensures Split(Join(parts, sep), sep) == parts
    decreases |parts|
  {
    if |parts| == 1 {
      SplitDelimited(parts[0], sep);
    } else {
      SplitJoin(parts[1..], sep);
      SplitAfterDelimited(parts[0], sep, Join(parts[1..], sep));
      assert [parts[0]] + parts[1..] == parts;
    }
  }

  /** A string without the separator's first character delimits itself, whatever follows. */
  lemma DelimitsWithoutChar(p: string, sep: string)
    requires |sep| > 0 && sep[0] !in p
    ensures Delimits(p, sep)
  {
    forall j | 0 <= j < |p|
      ensures !SepAt(p + sep, sep, j)
    {
      assert (p + sep)[j] == p[j] != sep[0];
      assert j + |sep| <= |p + sep| ==> (p + sep)[j..j + |sep|][0] == p[j];
    }
  }

  /** A string without the separator's second character delimits itself, when that character
      differs from the first: no occurrence can start inside it. */
  lemma DelimitsWithoutSecondChar(p: string, sep: string)
    requires |sep| >= 2 && sep[1] != sep[0] && sep[1] !in p
    ensures Delimits(p, sep)
  {
    forall j | 0 <= j < |p|
      ensures !SepAt(p + sep, sep, j)
    {
      assert (p + sep)[j + 1] != sep[1] by {
        if j + 1 < |p| {
          assert (p + sep)[j + 1] == p[j + 1];
        } else {
          assert (p + sep)[j + 1] == sep[0];
        }
      }
      assert j + |sep| <= |p + sep| ==> (p + sep)[j..j + |sep|][1] == (p + sep)[j + 1];
    }
  }
}
