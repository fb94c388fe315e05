/**
  String helpers: cutting a string at a delimiter character the way a
  loop over std::getline does, and joining rendered container elements
  with a separator.
 */
module Misc {

  type String = seq<char>

  /** The separator dumpContainer uses when its caller gives none. */
  const DefaultSeparator: String := ",\n"

  /** The number of occurrences of c in s. */
  function Count(s: String, c: char): nat {
    if s == [] then 0 else (if s[0] == c then 1 else 0) + Count(s[1..], c)
  }

  lemma {:induction false} CountAppend(s: String, t: String, c: char)
    ensures Count(s + t, c) == Count(s, c) + Count(t, c)
  {
    if s != [] {
      assert (s + t)[1..] == s[1..] + t;
      assert Count(s + t, c) == (if s[0] == c then 1 else 0) + Count(s[1..] + t, c);
      CountAppend(s[1..], t, c);
    } else {
      assert s + t == t;
    }
  }

  lemma {:induction false} CountAbsent(s: String, c: char)
    requires c !in s
    ensures Count(s, c) == 0
  {
    if s != [] {
      CountAbsent(s[1..], c);
    }
  }

  /**
    The index of the first occurrence of delim in s, or |s| when there is
    none: how far one getline call reads.
   */
  function FirstIndex(s: String, delim: char): (i: nat)
    ensures i <= |s|
    ensures forall j :: 0 <= j < i ==> s[j] != delim
    ensures i < |s| ==> s[i] == delim
  {
    if s == [] || s[0] == delim then 0 else 1 + FirstIndex(s[1..], delim)
  }

  /** Any index that the two properties of FirstIndex hold of is FirstIndex. */
  lemma FirstIndexUnique(s: String, delim: char, i: nat)
    requires i <= |s|
    requires forall j :: 0 <= j < i ==> s[j] != delim
    requires i < |s| ==> s[i] == delim
    ensures FirstIndex(s, delim) == i
  {
  }

  /**
    The pieces that successive std::getline(stream, item, delim) calls
    extract from a stream holding s. A call fails only when the stream is
    already exhausted; otherwise it yields the characters up to the next
    delimiter (or to the end) and consumes that delimiter. So the empty
    string gives no piece, two adjacent delimiters give an empty piece and
    a final delimiter gives no trailing empty piece.
   */
  function Pieces(s: String, delim: char): seq<String>
    decreases |s|
  {
    if s == [] then []
    else
      var i := FirstIndex(s, delim);
      if i == |s| then [s] else [s[..i]] + Pieces(s[i + 1..], delim)
  }

  /**
    The elements joined with sep between each consecutive pair, with no
    separator before the first or after the last.
   */
  function Join(elems: seq<String>, sep: String): String
    decreases |elems|
  {
    if elems == [] then []
    else if |elems| == 1 then elems[0]
    else elems[0] + sep + Join(elems[1..], sep)
  }

  /** Joining one more element appends a separator and that element. */
  lemma {:induction false} JoinSnoc(elems: seq<String>, x: String, sep: String)
    ensures Join(elems + [x], sep) == if elems == [] then x else Join(elems, sep) + sep + x
    decreases |elems|
  {
    if |elems| >= 2 {
      assert (elems + [x])[1..] == elems[1..] + [x];
      JoinSnoc(elems[1..], x, sep);
    } else if |elems| == 1 {
      assert (elems + [x])[1..] == [x];
    }
  }

  /** s ends with the characters of x. */
  predicate EndsWith(s: String, x: String) {
    |x| <= |s| && s[|s| - |x|..] == x
  }

  /** The sum of the lengths of the elements. */
  function TotalLength(elems: seq<String>): nat {
    if elems == [] then 0 else |elems[0]| + TotalLength(elems[1..])
  }

  /** A join holds the elements' characters plus exactly |elems| - 1 separators. */
  lemma {:induction false} JoinLength(elems: seq<String>, sep: String)
    requires elems != []
    ensures |Join(elems, sep)| == TotalLength(elems) + (|elems| - 1) * |sep|
    decreases |elems|
  {
    if |elems| >= 2 {
      JoinLength(elems[1..], sep);
      assert |Join(elems, sep)| == |elems[0]| + |sep| + |Join(elems[1..], sep)|;
    }
  }

  /**
    A join of no elements is empty; otherwise it starts with the first
    element and ends with the last, so no separator leads or trails.
   */
  lemma {:induction false} JoinEnds(elems: seq<String>, sep: String)
    ensures elems == [] ==> Join(elems, sep) == []
    ensures elems != [] ==> elems[0] <= Join(elems, sep)
    ensures elems != [] ==> EndsWith(Join(elems, sep), elems[|elems| - 1])
    decreases |elems|
  {
    if |elems| >= 2 {
      JoinEnds(elems[1..], sep);
      var rest := Join(elems[1..], sep);
      var last := elems[|elems| - 1];
      assert elems[1..][|elems[1..]| - 1] == last;
      assert Join(elems, sep) == elems[0] + (sep + rest);
      assert EndsWith(rest, last);
      assert (elems[0] + (sep + rest))[|Join(elems, sep)| - |last|..] == rest[|rest| - |last|..];
    }
  }

  /**
    When the separator is a single character that no element contains, the
    join holds that character exactly |elems| - 1 times.
   */
  lemma {:induction false} JoinCount(elems: seq<String>, delim: char)
    requires elems != []
    requires forall k :: 0 <= k < |elems| ==> delim !in elems[k]
    ensures Count(Join(elems, [delim]), delim) == |elems| - 1
    decreases |elems|
  {
    CountAbsent(elems[0], delim);
    if |elems| >= 2 {
      JoinCount(elems[1..], delim);
      CountAppend(elems[0], [delim], delim);
      CountAppend(elems[0] + [delim], Join(elems[1..], [delim]), delim);
    }
  }

  /** No piece holds the delimiter. */
  lemma {:induction false} PiecesExcludeDelimiter(s: String, delim: char)
    ensures forall k :: 0 <= k < |Pieces(s, delim)| ==> delim !in Pieces(s, delim)[k]
    decreases |s|
  {
    if s != [] {
      var i := FirstIndex(s, delim);
      if i < |s| {
        PiecesExcludeDelimiter(s[i + 1..], delim);
      }
    }
  }

  /**
    Splitting then joining with the delimiter gives s back, short of the
    final delimiter when s ends in one (getline yields no empty piece for it).
   */
  lemma {:induction false} JoinPieces(s: String, delim: char)
    ensures s == [] ==> Pieces(s, delim) == []
    ensures s != [] && s[|s| - 1] != delim ==> Join(Pieces(s, delim), [delim]) == s
    ensures s != [] && s[|s| - 1] == delim ==> Join(Pieces(s, delim), [delim]) + [delim] == s
    decreases |s|
  {
    if s == [] {
      return;
    }
    var i := FirstIndex(s, delim);
    if i == |s| {
      assert Pieces(s, delim) == [s];
      return;
    }
    var head, rest := s[..i], s[i + 1..];
    assert Pieces(s, delim) == [head] + Pieces(rest, delim);
    SplitAround(s, i);
    if rest != [] {
      JoinPieces(rest, delim);
      assert rest[|rest| - 1] == s[|s| - 1];
      JoinCons(head, Pieces(rest, delim), [delim]);
    }
  }

  /** A string is the part before index i, the character at i and the part after it. */
  lemma SplitAround(s: String, i: nat)
    requires i < |s|
    ensures s == s[..i] + [s[i]] + s[i + 1..]
  {
  }

  /** Joining a head before a non-empty sequence puts one separator between them. */
  lemma JoinCons(head: String, elems: seq<String>, sep: String)
    requires elems != []
    ensures Join([head] + elems, sep) == head + sep + Join(elems, sep)
  {
  }

  /**
    The number of pieces is the number of delimiters, plus one for a
    non-empty string that does not end in the delimiter.
   */
  lemma {:induction false} PiecesCount(s: String, delim: char)
    ensures |Pieces(s, delim)| == Count(s, delim) + (if s != [] && s[|s| - 1] != delim then 1 else 0)
    decreases |s|
  {
    if s != [] {
      var i := FirstIndex(s, delim);
      if i == |s| {
        CountAbsent(s, delim);
      } else {
        var rest := s[i + 1..];
        assert s == s[..i] + ([delim] + rest);
        CountAbsent(s[..i], delim);
        CountAppend(s[..i], [delim] + rest, delim);
        CountAppend([delim], rest, delim);
        PiecesCount(rest, delim);
        if rest != [] {
          assert rest[|rest| - 1] == s[|s| - 1];
        }
      }
    }
  }

  /**
    Joining delimiter-free elements and splitting the result gives the
    elements back, provided the last one is not empty (an empty last
    element leaves a trailing delimiter, for which getline yields nothing).
   */
  lemma {:induction false} PiecesOfJoin(elems: seq<String>, delim: char)
    requires elems != [] && elems[|elems| - 1] != []
    requires forall k :: 0 <= k < |elems| ==> delim !in elems[k]
    ensures Pieces(Join(elems, [delim]), delim) == elems
    decreases |elems|
  {
    var x := elems[0];
    if |elems| == 1 {
      FirstIndexUnique(x, delim, |x|);
    } else {
      var rest := elems[1..];
      var tail := Join(rest, [delim]);
      var s := x + [delim] + tail;
      assert Join(elems, [delim]) == s;
      FirstIndexUnique(s, delim, |x|);
      assert s[..|x|] == x;
      assert s[|x| + 1..] == tail;
      PiecesOfJoin(rest, delim);
      assert elems == [x] + rest;
    }
  }

  /**
    One getline call from position start: it extracts s[start..pos], where
    pos is the first delimiter at or after start (or the end), and the
    remaining pieces come from what follows that delimiter.
   */
  lemma PiecesStep(s: String, delim: char, start: nat, pos: nat)
    requires start < |s| && start <= pos <= |s|
    requires forall j :: start <= j < pos ==> s[j] != delim
    requires pos < |s| ==> s[pos] == delim
    ensures Pieces(s[start..], delim) ==
            [s[start..pos]] + Pieces(s[if pos < |s| then pos + 1 else pos..], delim)
  {
    var rest := s[start..];
    FirstIndexUnique(rest, delim, pos - start);
    assert rest[..pos - start] == s[start..pos];
    if pos < |s| {
      assert rest[pos - start + 1..] == s[pos + 1..];
    } else {
      assert rest == s[start..pos];
      assert s[pos..] == [];
    }
  }

  /** A growable sequence of strings that split appends to (std::vector<std::string>). */
  class StringVector {
    var items: seq<String>

    constructor ()
      ensures items == []
    {
      items := [];
    }

    method PushBack(x: String)
      modifies this
      ensures items == old(items) + [x]
    {
      items := items + [x];
    }
  }

  /**
    One successful std::getline(stream, item, delim) on a stream positioned
    at start (not at its end): it reads characters up to the next delimiter
    or the end, and consumes the delimiter it stops at.
   */
  method GetLine(s: String, delim: char, start: nat) returns (item: String, next: nat)
    requires start < |s|
    ensures start < next <= |s|
    ensures Pieces(s[start..], delim) == [item] + Pieces(s[next..], delim)
  {
    var pos := start;
    item := [];
    while pos < |s| && s[pos] != delim
      invariant start <= pos <= |s|
      invariant item == s[start..pos]
      invariant forall j :: start <= j < pos ==> s[j] != delim
      decreases |s| - pos
    {
      item := item + [s[pos]];
      pos := pos + 1;
    }
    PiecesStep(s, delim, start, pos);
    next := if pos < |s| then pos + 1 else pos;
  }

  /**
    split(s, delim, elems): appends to elems every piece that repeated
    getline calls extract from s, and returns elems itself. The loop stops
    at the first getline that fails, which is the first one called on an
    exhausted stream.
   */
  method SplitAppend(s: String, delim: char, elems: StringVector) returns (r: StringVector)
    modifies elems
    ensures r == elems
    ensures elems.items == old(elems.items) + Pieces(s, delim)
  {
    var pos := 0;
    ghost var initial := elems.items;
    ghost var done: seq<String> := [];
    assert s[pos..] == s;
    while pos < |s|
      invariant pos <= |s|
      invariant elems.items == initial + done
      invariant done + Pieces(s[pos..], delim) == Pieces(s, delim)
      decreases |s| - pos
    {
      ghost var todo := Pieces(s[pos..], delim);
      var item;
      item, pos := GetLine(s, delim, pos);
      assert todo == [item] + Pieces(s[pos..], delim);
      elems.PushBack(item);
      assert (done + [item]) + Pieces(s[pos..], delim) == done + todo;
      done := done + [item];
    }
    assert s[pos..] == [];
    r := elems;
  }

  /** split(s, delim): the pieces of s, collected into a fresh vector. */
  method Split(s: String, delim: char) returns (r: seq<String>)
    ensures r == Pieces(s, delim)
  {
    var elems := new StringVector();
    var same := SplitAppend(s, delim, elems);
    r := elems.items;
  }

  /**
    dumpContainer(obj, sep): streams the already-rendered elements in
    order, writing sep before every element but the first.
   */
  method DumpContainer(obj: seq<String>, sep: String) returns (r: String)
    ensures r == Join(obj, sep)
  {
    r := [];
    var first := true;
    for i := 0 to |obj|
      invariant first <==> i == 0
      invariant r == Join(obj[..i], sep)
    {
      if !first {
        r := r + sep;
      } else {
        first := false;
      }
      r := r + obj[i];
      JoinSnoc(obj[..i], obj[i], sep);
      assert obj[..i + 1] == obj[..i] + [obj[i]];
    }
    assert obj[..|obj|] == obj;
  }
}
