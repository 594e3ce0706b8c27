/** The pattern matcher of the grep program: `^ . * $` over C strings.

The matcher's meaning is given without reference to how it searches: a pattern is
a list of items, each item denotes a set of words, and a text is matched when it can
be cut into one word per item. The three matching routines are then proved to
decide exactly that. A C string is modelled by the characters before its NUL. */
module Regex {

  datatype Item = One(c: char) | Star(c: char) | End

  predicate Accepts(c: char, x: char) {
    c == '.' || c == x
  }

  // The concrete syntax: `c*` binds first, `$` is special only as the last character.
  function Items(re: string): seq<Item>
    decreases |re|
  {
    if re == [] then []
    else if |re| >= 2 && re[1] == '*' then [Star(re[0])] + Items(re[2..])
    else if re == "$" then [End]
    else [One(re[0])] + Items(re[1..])
  }

  // An item as it is written.
  function Show(item: Item): (s: string)
    ensures s != ""
  {
    match item
    case One(c) => [c]
    case Star(c) => [c, '*']
    case End => "$"
  }

  function ShowAll(items: seq<Item>): string {
    if items == [] then "" else Show(items[0]) + ShowAll(items[1..])
  }

  // Items that can stand in a pattern: `$` is the end only as the last character, and is one there, and a star is
  // not written behind a single character.
  ghost predicate Written(items: seq<Item>) {
    forall k | 0 <= k < |items| ::
      && (items[k].End? || items[k] == One('$') ==> (items[k].End? <==> k == |items| - 1))
      && (items[k].One? && k + 1 < |items| ==> Show(items[k + 1])[0] != '*')
  }

  /** Every pattern reads as the items that it writes out, and as no others. */
  lemma {:induction false} ItemsShown(re: string)
    ensures ShowAll(Items(re)) == re && Written(Items(re))
    decreases |re|
  {
    var items := Items(re);
    if re != [] {
      var n := if |re| >= 2 && re[1] == '*' then 2 else 1;
      if re != "$" || n == 2 {
        ItemsShown(re[n..]);
        assert items[1..] == Items(re[n..]);
        assert Show(items[0]) == re[..n] && re == re[..n] + re[n..];
        assert |items| > 1 ==> Show(items[1])[0] == re[n];
        forall k | 0 < k < |items| ensures items[k] == items[1..][k - 1] {
        }
      } else {
        assert items[1..] == [];
      }
    }
  }

  lemma {:induction false} ShownItems(items: seq<Item>)
    requires Written(items)
    ensures Items(ShowAll(items)) == items
    decreases |items|
  {
    if items != [] {
      var re, rest := ShowAll(items), ShowAll(items[1..]);
      forall k | 0 <= k < |items[1..]| ensures items[1..][k] == items[k + 1] {
      }
      ShownItems(items[1..]);
      assert |items| > 1 ==> rest[0] == Show(items[1])[0];
      assert |items| == 1 ==> rest == "";
      assert re[|Show(items[0])|..] == rest;
    }
  }

  // The words an item stands for, in front of the text `rest`.
  ghost predicate Denotes(item: Item, word: string, rest: string) {
    match item
    case One(c) => |word| == 1 && Accepts(c, word[0])
    case Star(c) => forall i :: 0 <= i < |word| ==> Accepts(c, word[i])
    case End => word == "" && rest == ""
  }

  ghost function Concat(parts: seq<string>): string {
    if parts == [] then "" else parts[0] + Concat(parts[1..])
  }

  // `parts` cuts a prefix of `text` into one word per item.
  ghost predicate Cuts(items: seq<Item>, parts: seq<string>, text: string) {
    && |parts| == |items|
    && Concat(parts) <= text
    && forall i :: 0 <= i < |items| ==> Denotes(items[i], parts[i], text[|Concat(parts)|..])
  }

  ghost predicate MatchesPrefix(items: seq<Item>, text: string) {
    exists parts :: Cuts(items, parts, text)
  }

  ghost predicate Matches(re: string, text: string) {
    if re != "" && re[0] == '^' then
      MatchesPrefix(Items(re[1..]), text)
    else
      exists i :: 0 <= i <= |text| && MatchesPrefix(Items(re), text[i..])
  }

  // Putting one word in front of a cutting.
  lemma CutsCons(item: Item, items: seq<Item>, word: string, parts: seq<string>, text: string)
    requires word <= text
    requires Cuts(items, parts, text[|word|..])
    requires Denotes(item, word, text[|word|..][|Concat(parts)|..])
    ensures Cuts([item] + items, [word] + parts, text)
  {
  }

  // Taking the first word off a cutting.
  lemma CutsTail(item: Item, items: seq<Item>, parts: seq<string>, text: string)
    requires Cuts([item] + items, parts, text)
    ensures parts[0] <= text
    ensures Cuts(items, parts[1..], text[|parts[0]|..])
    ensures Denotes(item, parts[0], text[|Concat(parts)|..])
  {
  }

  lemma PrefixEmpty(text: string)
    ensures MatchesPrefix([], text)
  {
    assert Cuts([], [], text);
  }

  lemma PrefixOne(c: char, items: seq<Item>, text: string)
    ensures MatchesPrefix([One(c)] + items, text) <==>
            text != "" && Accepts(c, text[0]) && MatchesPrefix(items, text[1..])
  {
    if MatchesPrefix([One(c)] + items, text) {
      var parts :| Cuts([One(c)] + items, parts, text);
      CutsTail(One(c), items, parts, text);
    }
    if text != "" && Accepts(c, text[0]) && MatchesPrefix(items, text[1..]) {
      var parts :| Cuts(items, parts, text[1..]);
      CutsCons(One(c), items, text[..1], parts, text);
    }
  }

  /** A single character stands for itself, and a dot for any one. */
  lemma SingleItem(c: char, text: string)
    ensures MatchesPrefix([One(c)], text) <==> text != "" && (c == '.' || text[0] == c)
  {
    PrefixOne(c, [], text);
    assert [One(c)] + [] == [One(c)];
    if text != "" {
      PrefixEmpty(text[1..]);
    }
  }

  lemma PrefixEnd(text: string)
    ensures MatchesPrefix([End], text) <==> text == ""
  {
    assert [End] == [End] + [];
    if MatchesPrefix([End], text) {
      var parts :| Cuts([End], parts, text);
      CutsTail(End, [], parts, text);
      assert Concat(parts[1..]) == "";
    }
    if text == "" {
      assert Concat([""]) == "";
      assert Cuts([End], [""], text);
    }
  }

  // A starred item takes some run of acceptable characters, the rest of the pattern the remainder.
  ghost predicate StarAt(c: char, items: seq<Item>, text: string, k: nat)
    requires k <= |text|
  {
    (forall i :: 0 <= i < k ==> Accepts(c, text[i])) && MatchesPrefix(items, text[k..])
  }

  lemma PrefixStar(c: char, items: seq<Item>, text: string)
    ensures MatchesPrefix([Star(c)] + items, text) <==>
            exists k :: 0 <= k <= |text| && StarAt(c, items, text, k)
  {
    if MatchesPrefix([Star(c)] + items, text) {
      var parts :| Cuts([Star(c)] + items, parts, text);
      CutsTail(Star(c), items, parts, text);
      assert StarAt(c, items, text, |parts[0]|);
    }
    if k :| 0 <= k <= |text| && StarAt(c, items, text, k) {
      var parts :| Cuts(items, parts, text[k..]);
      CutsCons(Star(c), items, text[..k], parts, text);
    }
  }

  // Does the pattern match at the beginning of the text?
  method MatchHere(re: string, text: string) returns (found: bool)
    ensures found <==> MatchesPrefix(Items(re), text)
    decreases |re|, 0
  {
    if re == "" {
      PrefixEmpty(text);
      return true;
    }
    if |re| >= 2 && re[1] == '*' {
      found := MatchStar(re[0], re[2..], text);
      return;
    }
    if re == "$" {
      PrefixEnd(text);
      return text == "";
    }
    PrefixOne(re[0], Items(re[1..]), text);
    if text != "" && (re[0] == '.' || re[0] == text[0]) {
      found := MatchHere(re[1..], text[1..]);
      return;
    }
    return false;
  }

  // Does `c*` followed by the pattern match at the beginning of the text?
  method MatchStar(c: char, re: string, text: string) returns (found: bool)
    ensures found <==> MatchesPrefix([Star(c)] + Items(re), text)
    decreases |re|, 1
  {
    PrefixStar(c, Items(re), text);
    var i := 0;
    while true
      invariant 0 <= i <= |text|
      invariant forall j :: 0 <= j < i ==> Accepts(c, text[j])
      invariant forall k :: 0 <= k < i ==> !StarAt(c, Items(re), text, k)
      decreases |text| - i
    {
      var here := MatchHere(re, text[i..]);
      if here {
        assert StarAt(c, Items(re), text, i);
        return true;
      }
      if i < |text| && (text[i] == c || c == '.') {
        i := i + 1;
      } else {
        return false;
      }
    }
  }

  // grep's entry point: an anchored pattern is tried at the start only, any other at every suffix.
  method Match(re: string, text: string) returns (found: bool)
    ensures found <==> Matches(re, text)
  {
    if re != "" && re[0] == '^' {
      found := MatchHere(re[1..], text);
      return;
    }
    var i := 0;
    while true
      invariant 0 <= i <= |text|
      invariant forall k :: 0 <= k < i ==> !MatchesPrefix(Items(re), text[k..])
      decreases |text| - i
    {
      var here := MatchHere(re, text[i..]);
      if here {
        return true;
      }
      if i == |text| {
        return false;
      }
      i := i + 1;
    }
  }
}
