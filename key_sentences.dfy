/** The key-sentence list the component renders from its `keySentences` state:
    the string is split on the two-character literal backslash-n, and each piece
    whose trim is non-empty becomes one list item, untrimmed and in order. */
module KeySentences {
  import opened Outcomes
  import opened JsString

  /** The separator the component splits on: a backslash followed by the letter n
      (two characters), not a newline character. */
  const Separator: string := "\\n"

  /** The pieces whose trim is non-empty, in their original order and untrimmed.
      A blank piece renders as an empty string, which produces no list item.
      The test is written as `!Blank(p)`, which the contract of `Trim` shows to be
      the same as `Trim(p) != ""`. */
  function KeepNonBlank(pieces: seq<string>): (r: seq<string>)
    ensures |r| <= |pieces|
    ensures forall k :: 0 <= k < |r| ==> !Blank(r[k])
  {
    if pieces == [] then []
    else (if !Blank(pieces[0]) then [pieces[0]] else []) + KeepNonBlank(pieces[1..])
  }

  /** `a` is an in-order subsequence of `b`. */
  ghost predicate IsSubsequence(a: seq<string>, b: seq<string>)
    decreases |b|
  {
    a == [] || (b != [] && ((a[0] == b[0] && IsSubsequence(a[1..], b[1..])) || IsSubsequence(a, b[1..])))
  }

  /** Filtering keeps the surviving pieces in their original relative order. */
  lemma {:induction false} KeepNonBlankIsSubsequence(pieces: seq<string>)
    ensures IsSubsequence(KeepNonBlank(pieces), pieces)
    decreases |pieces|
  {
    if pieces != [] {
      KeepNonBlankIsSubsequence(pieces[1..]);
      var rest := KeepNonBlank(pieces[1..]);
      if !Blank(pieces[0]) {
        assert KeepNonBlank(pieces) == [pieces[0]] + rest;
        assert ([pieces[0]] + rest)[1..] == rest;
      } else {
        assert KeepNonBlank(pieces) == rest;
      }
    }
  }

  /** A string is an item exactly when it is a non-blank piece, and it is an
      item as many times as it is a piece. */
  lemma {:induction false} KeepNonBlankMembers(pieces: seq<string>)
    ensures forall p :: p in KeepNonBlank(pieces) <==> p in pieces && !Blank(p)
    ensures forall p :: multiset(KeepNonBlank(pieces))[p] == if Blank(p) then 0 else multiset(pieces)[p]
    decreases |pieces|
  {
    if pieces != [] {
      KeepNonBlankMembers(pieces[1..]);
      assert pieces == [pieces[0]] + pieces[1..];
      var head := if !Blank(pieces[0]) then [pieces[0]] else [];
      assert KeepNonBlank(pieces) == head + KeepNonBlank(pieces[1..]);
      assert multiset(pieces) == multiset([pieces[0]]) + multiset(pieces[1..]);
      assert multiset(KeepNonBlank(pieces)) == multiset(head) + multiset(KeepNonBlank(pieces[1..]));
    }
  }

  /** Filtering is piecewise: the items of a concatenation are the items of each part. */
  lemma {:induction false} KeepNonBlankAppend(a: seq<string>, b: seq<string>)
    ensures KeepNonBlank(a + b) == KeepNonBlank(a) + KeepNonBlank(b)
    decreases |a|
  {
    if a == [] {
      assert a + b == b;
    } else {
      var head := if !Blank(a[0]) then [a[0]] else [];
      assert (a + b)[0] == a[0];
      assert (a + b)[1..] == a[1..] + b;
      assert KeepNonBlank(a + b) == head + KeepNonBlank(a[1..] + b);
      KeepNonBlankAppend(a[1..], b);
      assert KeepNonBlank(a) == head + KeepNonBlank(a[1..]);
    }
  }

  /** The items rendered for a `keySentences` string: one per non-blank piece. */
  function Items(keySentences: string): (r: seq<string>)
    ensures |r| <= |Split(keySentences, Separator)|
    ensures forall k :: 0 <= k < |r| ==> !Blank(r[k]) && !Contains(r[k], Separator)
  {
    var pieces := Split(keySentences, Separator);
    SplitPiecesFree(keySentences, Separator);
    KeepNonBlankMembers(pieces);
    var r := KeepNonBlank(pieces);
    assert forall k :: 0 <= k < |r| ==> r[k] in pieces;
    r
  }

  /** The key-sentence card: shown only when `keySentences` is a non-empty string
      (null and the empty string are falsy), and then listing `Items`. */
  function Card(keySentences: Option<string>): (r: Option<seq<string>>)
    ensures r.Some? <==> keySentences.Some? && keySentences.value != ""
    ensures r.Some? ==> r.value == Items(keySentences.value)
  {
    if keySentences.Some? && keySentences.value != "" then Some(Items(keySentences.value)) else None
  }

  /** What the list shows: an in-order subsequence of the pieces of the split,
      each item non-blank and free of the separator, and every non-blank piece
      shown; blank pieces are dropped; the pieces, joined back, are the string. */
  lemma ItemsAreTheNonBlankPieces(keySentences: string)
    ensures IsSubsequence(Items(keySentences), Split(keySentences, Separator))
    ensures forall k :: 0 <= k < |Items(keySentences)| ==>
      Trim(Items(keySentences)[k]) != "" && !Contains(Items(keySentences)[k], Separator)
    ensures forall p :: p in Items(keySentences) <==> p in Split(keySentences, Separator) && !Blank(p)
    ensures forall p ::
      multiset(Items(keySentences))[p] == if Blank(p) then 0 else multiset(Split(keySentences, Separator))[p]
    ensures Join(Split(keySentences, Separator), Separator) == keySentences
  {
    var pieces := Split(keySentences, Separator);
    KeepNonBlankIsSubsequence(pieces);
    KeepNonBlankMembers(pieces);
    SplitPiecesFree(keySentences, Separator);
    JoinSplit(keySentences, Separator);
    forall k | 0 <= k < |Items(keySentences)|
      ensures !Contains(Items(keySentences)[k], Separator)
    {
      var item := Items(keySentences)[k];
      assert item in pieces;
      var j :| 0 <= j < |pieces| && pieces[j] == item;
    }
  }

  /** A string in which the separator does not occur is shown as a single item
      (or as no item if it is blank). In particular sentences separated by real
      newline characters are not split apart. */
  lemma UnseparatedIsOneItem(keySentences: string)
    requires !Contains(keySentences, Separator)
    ensures Items(keySentences) == if Blank(keySentences) then [] else [keySentences]
  {
    SplitSingle(keySentences, Separator);
    assert Split(keySentences, Separator) == [keySentences];
  }

  /** The literal backslash-n splits "A.", an empty piece and "B." apart. */
  lemma LiteralSeparatorSplit()
    ensures Split("A.\\n\\nB.", Separator) == ["A.", "", "B."]
  {
    var answer := "A.\\n\\nB.";
    assert answer[0..2][0] == 'A' && answer[1..3][0] == '.';
    assert !OccursAt(answer, Separator, 0) && !OccursAt(answer, Separator, 1);
    assert OccursAt(answer, Separator, 2);
    var tail := answer[4..];
    assert tail == "\\nB.";
    assert OccursAt(tail, Separator, 0);
    assert tail[2..] == "B.";
    SplitSingle("B.", Separator);
    assert Split(tail, Separator) == [""] + Split("B.", Separator);
    assert answer[..2] == "A.";
    assert Split(answer, Separator) == [answer[..2]] + Split(tail, Separator);
  }

  /** "A.", an empty piece and "B." separated by the literal backslash-n render
      as the two items "A." and "B.". */
  lemma LiteralSeparatorExample()
    ensures Items("A.\\n\\nB.") == ["A.", "B."]
  {
    LiteralSeparatorSplit();
    var pieces: seq<string> := ["A.", "", "B."];
    assert !Blank(pieces[0]) && Blank(pieces[1]) && !Blank(pieces[2]);
    assert KeepNonBlank(pieces[2..]) == [pieces[2]];
    assert KeepNonBlank(pieces[1..]) == KeepNonBlank(pieces[2..]);
    assert KeepNonBlank(pieces) == [pieces[0]] + KeepNonBlank(pieces[1..]);
  }

  /** The same answer with newline characters instead of the literal backslash-n
      renders as a single item. */
  lemma NewlineCharacterExample()
    ensures Items("A.\n\nB.") == ["A.\n\nB."]
  {
    var answer := "A.\n\nB.";
    forall i: nat | i <= |answer| ensures !OccursAt(answer, Separator, i) {
      if i + |Separator| <= |answer| {
        assert answer[i..i + |Separator|][0] == answer[i];
      }
    }
    assert !Blank(answer) by { assert answer[0] == 'A'; }
    UnseparatedIsOneItem(answer);
  }

  /** A non-empty but blank `keySentences` still shows the card, with an empty list. */
  lemma BlankShowsEmptyCard(keySentences: string)
    requires keySentences != "" && Blank(keySentences)
    ensures Card(Some(keySentences)) == Some([])
  {
    forall i: nat | i <= |keySentences| ensures !OccursAt(keySentences, Separator, i) {
      if i + |Separator| <= |keySentences| {
        assert keySentences[i..i + |Separator|][0] == keySentences[i];
        assert !IsWhitespace(Separator[0]);
      }
    }
    UnseparatedIsOneItem(keySentences);
  }
}
