/** The pattern matcher of grep (user/program/grep.c): match answers exactly whether some
    piece of the text belongs to the language of the pattern. Strings are the characters
    before the terminating NUL, so reading past the end is the empty rest. */
module Grep {

  // ---------------------------------------------------------------- patterns, declaratively

  /** One character, any number of one character, or the end of the text; '.' is any character. */
  datatype Item = One(c: char) | Star(c: char) | End

  /** A star belongs to the character before it, even when that is '$' or '*'; '$' marks the
      end only as the last character. A leading '^' is not part of this. */
  function Parse(re: string): seq<Item>
  {
    if re == "" then []
    else if |re| > 1 && re[1] == '*' then [Star(re[0])] + Parse(re[2..])
    else if re == "$" then [End]
    else [One(re[0])] + Parse(re[1..])
  }

  function Spelling(items: seq<Item>): string
  {
    if items == [] then ""
    else (match items[0] case One(c) => [c] case Star(c) => [c, '*'] case End => "$") + Spelling(items[1..])
  }

  /** The items spell the pattern, an end mark is the last of them, a final '$' without a star before
      it is one, and no item of one character stands before a star. */
  lemma {:induction false} ParseSpells(re: string)
    ensures Spelling(Parse(re)) == re
    ensures forall i :: 0 <= i < |Parse(re)| && Parse(re)[i] == End ==> i == |Parse(re)| - 1
    ensures forall i :: 0 <= i < |Parse(re)| && Parse(re)[i] == One('$') ==> i < |Parse(re)| - 1
    ensures forall i :: 0 <= i < |Parse(re)| - 1 && Parse(re)[i].One? ==> Parse(re)[i + 1] != One('*')
    decreases |re|
  {
    if re == "" {
    } else if |re| > 1 && re[1] == '*' {
      ParseSpells(re[2..]);
      assert re == [re[0], '*'] + re[2..];
      assert Parse(re)[1..] == Parse(re[2..]);
    } else if re == "$" {
      assert [End][1..] == [];
    } else {
      ParseSpells(re[1..]);
      assert re == [re[0]] + re[1..];
      assert Parse(re)[1..] == Parse(re[1..]);
    }
  }

  predicate CharOk(c: char, x: char)
  {
    c == '.' || c == x
  }

  predicate PieceOk(item: Item, piece: string)
  {
    match item
    case One(c) => |piece| == 1 && CharOk(c, piece[0])
    case Star(c) => forall i :: 0 <= i < |piece| ==> CharOk(c, piece[i])
    case End => piece == ""
  }

  function Join(pieces: seq<string>): string
  {
    if pieces == [] then "" else pieces[0] + Join(pieces[1..])
  }

  predicate Splits(items: seq<Item>, w: string, pieces: seq<string>)
  {
    |pieces| == |items| && Join(pieces) == w && forall i :: 0 <= i < |items| ==> PieceOk(items[i], pieces[i])
  }

  /** w is a concatenation of one piece for each item. */
  ghost predicate InLanguage(items: seq<Item>, w: string)
  {
    exists pieces :: Splits(items, w, pieces)
  }

  /** text[i..j] is in the language, and an end mark means the end of the text. */
  ghost predicate Occurs(items: seq<Item>, text: string, i: int, j: int)
  {
    0 <= i <= j <= |text| && InLanguage(items, text[i..j]) && (End in items ==> j == |text|)
  }

  predicate Anchored(re: string)
  {
    re != "" && re[0] == '^'
  }

  function Body(re: string): string
  {
    if Anchored(re) then re[1..] else re
  }

  /** What grep is for: the pattern matches somewhere, with '^' at the start only. */
  ghost predicate Matches(re: string, text: string)
  {
    exists i, j :: Occurs(Parse(Body(re)), text, i, j) && (Anchored(re) ==> i == 0)
  }

  ghost predicate Here(items: seq<Item>, text: string)
  {
    exists j :: Occurs(items, text, 0, j)
  }

  // ---------------------------------------------------------------- one item at a time

  lemma HereNil(text: string)
    ensures Here([], text)
  {
    assert Splits([], text[0..0], []);
    assert Occurs([], text, 0, 0);
  }

  lemma HereEnd(text: string)
    ensures Here([End], text) <==> text == ""
  {
    if j :| Occurs([End], text, 0, j) {
      var pieces :| Splits([End], text[0..j], pieces);
      assert pieces[1..] == [];
      assert End in [End];
    }
    if text == "" {
      assert [""][1..] == [];
      assert Join([""]) == "" + Join([]);
      assert Splits([End], text[0..0], [""]);
      assert Occurs([End], text, 0, 0);
    }
  }

  /** Every match of item + rest takes a piece for the item and then matches the rest. */
  lemma HereHead(item: Item, rest: seq<Item>, text: string)
    requires item != End
    ensures Here([item] + rest, text) <==>
            exists k :: 0 <= k <= |text| && PieceOk(item, text[..k]) && Here(rest, text[k..])
  {
    var items := [item] + rest;
    assert items[0] == item && items[1..] == rest;
    if j :| Occurs(items, text, 0, j) {
      var pieces :| Splits(items, text[0..j], pieces);
      HereSplit(item, rest, text, j, pieces);
    }
    if k :| 0 <= k <= |text| && PieceOk(item, text[..k]) && Here(rest, text[k..]) {
      var j :| Occurs(rest, text[k..], 0, j);
      HereJoin(item, rest, text, k, j);
    }
  }

  lemma HereSplit(item: Item, rest: seq<Item>, text: string, j: int, pieces: seq<string>)
    requires item != End && Occurs([item] + rest, text, 0, j) && Splits([item] + rest, text[0..j], pieces)
    ensures exists k :: 0 <= k <= |text| && PieceOk(item, text[..k]) && Here(rest, text[k..])
  {
    var items := [item] + rest;
    var k := |pieces[0]|;
    var tail := pieces[1..];
    assert text[0..j] == pieces[0] + Join(tail);
    assert text[..k] == text[0..j][..k] == pieces[0];
    assert text[k..][0..j - k] == text[0..j][k..] == Join(tail);
    assert PieceOk(items[0], pieces[0]);
    forall i | 0 <= i < |rest|
      ensures PieceOk(rest[i], tail[i])
    {
      assert items[i + 1] == rest[i];
    }
    assert Splits(rest, text[k..][0..j - k], tail);
    assert End in rest ==> End in items;
    assert Occurs(rest, text[k..], 0, j - k);
  }

  lemma HereJoin(item: Item, rest: seq<Item>, text: string, k: int, j: int)
    requires item != End && 0 <= k <= |text| && PieceOk(item, text[..k]) && Occurs(rest, text[k..], 0, j)
    ensures Here([item] + rest, text)
  {
    var items := [item] + rest;
    var tail :| Splits(rest, text[k..][0..j], tail);
    var pieces := [text[..k]] + tail;
    SplitsCons(item, rest, text[..k], text[k..][0..j], tail);
    assert text[0..k + j] == text[..k] + text[k..][0..j];
    assert Splits(items, text[0..k + j], pieces);
    assert End in items ==> End in rest;
    assert Occurs(items, text, 0, k + j);
  }

  lemma SplitsCons(item: Item, rest: seq<Item>, piece: string, w: string, tail: seq<string>)
    requires PieceOk(item, piece) && Splits(rest, w, tail)
    ensures Splits([item] + rest, piece + w, [piece] + tail)
  {
    var pieces := [piece] + tail;
    assert pieces[1..] == tail;
  }

  lemma HereOne(c: char, rest: seq<Item>, text: string)
    ensures Here([One(c)] + rest, text) <==> text != "" && CharOk(c, text[0]) && Here(rest, text[1..])
  {
    HereHead(One(c), rest, text);
  }

  /** Occurring at i in the text is occurring at the start of what follows. */
  lemma OccursAt(items: seq<Item>, text: string, i: int)
    requires 0 <= i <= |text|
    ensures Here(items, text[i..]) <==> exists j :: Occurs(items, text, i, j)
  {
    if j :| Occurs(items, text[i..], 0, j) {
      assert text[i..][0..j] == text[i..i + j];
      assert Occurs(items, text, i, i + j);
    }
    if j :| Occurs(items, text, i, j) {
      assert text[i..][0..j - i] == text[i..j];
      assert Occurs(items, text[i..], 0, j - i);
    }
  }

  // ---------------------------------------------------------------- grep.c

  /** matchhere. */
  method MatchHere(re: string, text: string) returns (r: bool)
    ensures r <==> Here(Parse(re), text)
    decreases |re|, 0
  {
    if re == "" {
      HereNil(text);
      return true;
    }
    if |re| > 1 && re[1] == '*' {
      r := MatchStar(re[0], re[2..], text);
      return;
    }
    if re[0] == '$' && |re| == 1 {
      assert re == "$";
      HereEnd(text);
      return text == "";
    }
    HereOne(re[0], Parse(re[1..]), text);
    if text != "" && (re[0] == '.' || re[0] == text[0]) {
      r := MatchHere(re[1..], text[1..]);
      return;
    }
    return false;
  }

  /** matchstar: any number of c's, then the rest. */
  method MatchStar(c: char, re: string, text: string) returns (r: bool)
    ensures r <==> Here([Star(c)] + Parse(re), text)
    decreases |re|, 1
  {
    HereHead(Star(c), Parse(re), text);
    var k := 0;
    while true
      invariant 0 <= k <= |text| && PieceOk(Star(c), text[..k])
      invariant forall i :: 0 <= i < k ==> !Here(Parse(re), text[i..])
      decreases |text| - k
    {
      r := MatchHere(re, text[k..]);
      if r {
        return;
      }
      if k < |text| && (text[k] == c || c == '.') {
        k := k + 1;
      } else {
        break;
      }
    }
    assert forall n :: k < n <= |text| ==> text[..n][k] == text[k];
    return false;
  }

  /** match: 1 exactly when some piece of the text is in the pattern's language. */
  method Match(re: string, text: string) returns (r: bool)
    ensures r <==> Matches(re, text)
  {
    ghost var items := Parse(Body(re));
    if re != "" && re[0] == '^' {
      r := MatchHere(re[1..], text);
      assert text[0..] == text;
      OccursAt(items, text, 0);
      return;
    }
    var i := 0;
    while true
      invariant 0 <= i <= |text|
      invariant forall k, j :: 0 <= k < i ==> !Occurs(items, text, k, j)
      decreases |text| - i
    {
      r := MatchHere(re, text[i..]);
      OccursAt(items, text, i);
      if r {
        return;
      }
      if i == |text| {
        return false;
      }
      i := i + 1;
    }
  }
}
