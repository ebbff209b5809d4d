/** The string operations the trie relies on: `split("/")`, `join("/")`, `Array.at` with a negative
    index, `replaceAll("-", " ")`, and the path helper `joinSegments`. */
module Strings {
  import opened Wrappers

  predicate NoSlash(s: string) {
    forall i :: 0 <= i < |s| ==> s[i] != '/'
  }

  /** `s.split("/")`: always at least one part, and no part contains a slash. */
  function Split(s: string): (r: seq<string>)
    ensures |r| >= 1
    ensures forall i :: 0 <= i < |r| ==> NoSlash(r[i])
    ensures |r| == 1 <==> NoSlash(s)
    decreases |s|
  {
    if |s| == 0 then [""]
    else
      var rest := Split(s[1..]);
      if s[0] == '/' then [""] + rest
      else [[s[0]] + rest[0]] + rest[1..]
  }

  /** `parts.join("/")`. */
  function Join(parts: seq<string>): string
  {
    if |parts| == 0 then ""
    else if |parts| == 1 then parts[0]
    else parts[0] + "/" + Join(parts[1..])
  }

  lemma {:induction false} JoinSplit(s: string)
    ensures Join(Split(s)) == s
    decreases |s|
  {
    if |s| > 0 {
      JoinSplit(s[1..]);
      var rest := Split(s[1..]);
      if s[0] == '/' {
        assert Split(s) == [""] + rest;
        assert Join(Split(s)) == "" + "/" + Join(rest);
        assert s == [s[0]] + s[1..];
      } else {
        if |rest| == 1 {
          assert Split(s) == [[s[0]] + rest[0]];
        } else {
          assert Split(s)[1..] == rest[1..];
          assert Join(rest) == rest[0] + "/" + Join(rest[1..]);
        }
        assert s == [s[0]] + s[1..];
      }
    }
  }

  lemma {:induction false} SplitJoin(parts: seq<string>)
    requires |parts| >= 1
    requires forall i :: 0 <= i < |parts| ==> NoSlash(parts[i])
    ensures Split(Join(parts)) == parts
    decreases |parts|, |parts[0]|
  {
    if |parts| == 1 {
      SplitNoSlash(parts[0]);
    } else if |parts[0]| == 0 {
      SplitJoin(parts[1..]);
      assert Join(parts) == "/" + Join(parts[1..]);
      SplitAfterSlash(Join(parts[1..]));
      assert parts == [""] + parts[1..];
    } else {
      var c := parts[0][0];
      var tail := [parts[0][1..]] + parts[1..];
      assert forall i :: 0 <= i < |tail| ==> NoSlash(tail[i]);
      SplitJoin(tail);
      assert parts[0] == [c] + parts[0][1..];
      assert parts == [[c] + parts[0][1..]] + parts[1..];
      JoinHeadChar(c, parts[0][1..], parts[1..]);
      SplitAfterChar(c, Join(tail));
      assert tail[1..] == parts[1..];
    }
  }

  lemma SplitAfterSlash(t: string)
    ensures Split("/" + t) == [""] + Split(t)
  {
    assert ("/" + t)[1..] == t;
  }

  lemma SplitAfterChar(c: char, t: string)
    requires c != '/'
    ensures Split([c] + t) == [[c] + Split(t)[0]] + Split(t)[1..]
  {
    assert ([c] + t)[1..] == t;
  }

  /** Joining parts whose first part is not empty starts with that part's first character. */
  lemma JoinHeadChar(c: char, rest: string, ps: seq<string>)
    requires |ps| >= 1
    ensures Join([[c] + rest] + ps) == [c] + Join([rest] + ps)
  {
    JoinCons([c] + rest, ps);
    JoinCons(rest, ps);
    SlashRegroups(c, rest, Join(ps));
  }

  lemma JoinCons(p: string, ps: seq<string>)
    requires |ps| >= 1
    ensures Join([p] + ps) == p + "/" + Join(ps)
  {
    assert ([p] + ps)[1..] == ps;
  }

  lemma SlashRegroups(c: char, r: string, j: string)
    ensures ([c] + r) + "/" + j == [c] + (r + "/" + j)
  {
  }

  lemma {:induction false} SplitNoSlash(s: string)
    requires NoSlash(s)
    ensures Split(s) == [s]
    decreases |s|
  {
    if |s| > 0 {
      SplitNoSlash(s[1..]);
      assert s == [s[0]] + s[1..];
    }
  }

  /** `parts.at(-k)` for `k >= 1`: the `k`-th part from the end, if there are that many. */
  function AtFromEnd(parts: seq<string>, k: nat): (r: Option<string>)
    requires k >= 1
    ensures r.Some? <==> k <= |parts|
    ensures r.Some? ==> parts == parts[..|parts| - k] + [r.value] + parts[|parts| - k + 1..]
  {
    if k <= |parts| then
      assert parts == parts[..|parts| - k] + [parts[|parts| - k]] + parts[|parts| - k + 1..];
      Some(parts[|parts| - k])
    else None
  }

  /** The non-empty parts of `parts`, in order. */
  function NonEmpty(parts: seq<string>): (r: seq<string>)
    ensures forall i :: 0 <= i < |r| ==> r[i] != ""
    ensures |r| <= |parts|
  {
    if |parts| == 0 then []
    else if parts[0] == "" then NonEmpty(parts[1..])
    else [parts[0]] + NonEmpty(parts[1..])
  }

  /** `joinSegments(...parts)`, for parts that hold no slash: the non-empty parts joined by "/". */
  function JoinSegments(parts: seq<string>): (r: string)
    ensures (forall i :: 0 <= i < |parts| ==> parts[i] != "") ==> r == Join(parts)
  {
    if forall i :: 0 <= i < |parts| ==> parts[i] != "" then
      NonEmptyKeepsNonEmpty(parts);
      Join(NonEmpty(parts))
    else Join(NonEmpty(parts))
  }

  /** `s.replaceAll("-", " ")`. */
  function HyphensToSpaces(s: string): (r: string)
    ensures |r| == |s|
    ensures forall i :: 0 <= i < |s| ==> r[i] == (if s[i] == '-' then ' ' else s[i])
  {
    if |s| == 0 then "" else [if s[0] == '-' then ' ' else s[0]] + HyphensToSpaces(s[1..])
  }

  lemma {:induction false} NonEmptyKeepsNonEmpty(parts: seq<string>)
    requires forall i :: 0 <= i < |parts| ==> parts[i] != ""
    ensures NonEmpty(parts) == parts
  {
    if |parts| > 0 {
      NonEmptyKeepsNonEmpty(parts[1..]);
    }
  }

  lemma {:induction false} JoinAppend(parts: seq<string>, last: string)
    requires |parts| >= 1
    ensures Join(parts + [last]) == Join(parts) + "/" + last
  {
    if |parts| > 1 {
      assert (parts + [last])[1..] == parts[1..] + [last];
      JoinAppend(parts[1..], last);
    }
  }

  lemma {:induction false} JoinEmpty(parts: seq<string>)
    requires |parts| >= 1 && parts[0] != ""
    ensures Join(parts) != ""
  {
  }
}
