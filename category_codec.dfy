/** The comma encoding of a category list into one text column:
    `joinToString(",")` on the way in, `split(",")` on the way out. */
module CategoryCodec {
  import opened Models

  const Separator: char := ','

  /** No element contains the separator, and the list is not the one-element
      list `[""]` (which joins to the same "" as the empty list). Exactly the
      lists that survive an encode/decode round trip. */
  predicate Encodable(cs: seq<Text>) {
    cs != [[]] && forall c <- cs :: Separator !in c
  }

  /** Kotlin's `joinToString(",")`, the encoding of a category list into
      its column: the elements with a separator between each pair and none
      at either end. */
  function Join(parts: seq<Text>): (s: Text)
    ensures |parts| == 0 ==> s == []
    ensures |parts| == 1 ==> s == parts[0]
    ensures |parts| >= 2 ==> Separator in s
  {
    if |parts| == 0 then []
    else if |parts| == 1 then parts[0]
    else parts[0] + [Separator] + Join(parts[1..])
  }

  /** Kotlin's `split(",")`: the maximal separator-free pieces of `s`, in
      order; there is always one more piece than there are separators, so
      "" splits to [""] and "a," to ["a", ""]. */
  function Split(s: Text): (pieces: seq<Text>)
    ensures |pieces| >= 1
    ensures forall p <- pieces :: Separator !in p
  {
    if s == [] then [[]]
    else
      var rest := Split(s[1..]);
      if s[0] == Separator then [[]] + rest
      else [[s[0]] + rest[0]] + rest[1..]
  }

  /** The category list read back from the persisted column: the empty
      column is the empty list, anything else is split on the separator. */
  function DecodeCategories(s: Text): (cs: seq<Text>)
    ensures s == [] <==> cs == []
    ensures Encodable(cs)
  {
    if s == [] then []
    else
      JoinSplit(s);
      Split(s)
  }

  /** Splitting a separator-free prefix glues it onto the first piece. */
  lemma {:induction false} SplitPrefix(c: Text, t: Text)
    requires Separator !in c
    ensures Split(c + t) == [c + Split(t)[0]] + Split(t)[1..]
  {
    if c != [] {
      assert (c + t)[1..] == c[1..] + t;
      SplitPrefix(c[1..], t);
      assert [c[0]] + (c[1..] + Split(t)[0]) == c + Split(t)[0];
    } else {
      var pieces := Split(t);
      assert c + t == t && c + pieces[0] == pieces[0];
      assert pieces == [pieces[0]] + pieces[1..];
    }
  }

  /** split inverts join on lists of separator-free elements. */
  lemma {:induction false} SplitJoin(parts: seq<Text>)
    requires |parts| >= 1
    requires forall c <- parts :: Separator !in c
    ensures Split(Join(parts)) == parts
  {
    var c := parts[0];
    if |parts| == 1 {
      SplitPrefix(c, []);
      assert c + [] == c;
    } else {
      var tail := Join(parts[1..]);
      SplitJoin(parts[1..]);
      SplitPrefix(c, [Separator] + tail);
      assert c + [Separator] + tail == c + ([Separator] + tail);
      assert ([Separator] + tail)[1..] == tail;
      assert Split([Separator] + tail) == [[]] + parts[1..];
      assert c + [] == c;
      assert parts == [c] + parts[1..];
    }
  }

  /** join inverts split on every string. */
  lemma {:induction false} JoinSplit(s: Text)
    ensures Join(Split(s)) == s
  {
    if s != [] {
      var rest := Split(s[1..]);
      JoinSplit(s[1..]);
      if s[0] == Separator {
        assert Split(s)[1..] == rest;
        assert s == [Separator] + s[1..];
      } else {
        var first := [s[0]] + rest[0];
        assert Split(s) == [first] + rest[1..];
        if |rest| == 1 {
          assert Join(Split(s)) == first;
        } else {
          assert Join(rest) == rest[0] + [Separator] + Join(rest[1..]);
          assert ([first] + rest[1..])[1..] == rest[1..];
          assert Join(Split(s)) == first + [Separator] + Join(rest[1..]);
        }
        assert s == [s[0]] + s[1..];
      }
    }
  }

  /** Decoding undoes encoding exactly on the encodable lists. */
  lemma CategoriesRoundTrip(cs: seq<Text>)
    ensures DecodeCategories(Join(cs)) == cs <==> Encodable(cs)
  {
    if Encodable(cs) && cs != [] {
      assert Join(cs) != [];
      SplitJoin(cs);
    }
  }

  /** Encoding undoes decoding on every stored column. */
  lemma ColumnRoundTrip(s: Text)
    ensures Join(DecodeCategories(s)) == s
  {
    if s != [] {
      JoinSplit(s);
    }
  }
}
