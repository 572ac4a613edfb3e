/** The FAQ accordion (script.js:3-17). Each `.faqbox` is one entry; its
    `active` class is modelled as one flag of an array, in document order. */
module Faq {

  /** No two entries are open at once. */
  ghost predicate AtMostOneActive(s: seq<bool>)
  {
    forall j, k :: 0 <= j < |s| && 0 <= k < |s| && s[j] && s[k] ==> j == k
  }

  /** The indices of the open entries. */
  ghost function ActiveEntries(s: seq<bool>): set<nat>
  {
    set j: nat | j < |s| && s[j]
  }

  /** The "close all other open FAQs" pass, entry by entry in document order:
      `keep` is the position of the clicked entry relative to the start of `s`,
      and every other entry that is open is closed. */
  function CloseOthers(s: seq<bool>, keep: int): (r: seq<bool>)
    ensures |r| == |s|
    ensures forall j :: 0 <= j < |s| ==> r[j] == (s[j] && j == keep)
  {
    if s == [] then []
    else [if keep != 0 && s[0] then false else s[0]] + CloseOthers(s[1..], keep - 1)
  }

  /** The entries after a click on entry `i`: every other entry closed, then
      entry `i` toggled. */
  function Clicked(s: seq<bool>, i: nat): (r: seq<bool>)
    requires i < |s|
    ensures |r| == |s|
    ensures r[i] == !s[i]
    ensures forall j :: 0 <= j < |s| && j != i ==> !r[j]
    ensures AtMostOneActive(r)
  {
    var closed := CloseOthers(s, i);
    closed[i := !closed[i]]
  }

  /** The click handler of entry `i`, updating the flags in place. */
  method Click(boxes: array<bool>, i: nat)
    requires i < boxes.Length
    modifies boxes
    ensures boxes[..] == Clicked(old(boxes[..]), i)
  {
    var j := 0;
    while j < boxes.Length
      invariant 0 <= j <= boxes.Length
      invariant forall k :: 0 <= k < j ==> boxes[k] == (old(boxes[k]) && k == i)
      invariant forall k :: j <= k < boxes.Length ==> boxes[k] == old(boxes[k])
    {
      if j != i && boxes[j] {
        boxes[j] := false;
      }
      j := j + 1;
    }
    boxes[i] := !boxes[i];
  }

  /** After a click on entry `i`, the open entry is `i` if it was closed, and
      no entry is open if `i` was already open. */
  lemma ClickedOpensOnlyClickedEntry(s: seq<bool>, i: nat)
    requires i < |s|
    ensures ActiveEntries(Clicked(s, i)) == if s[i] then {} else {i}
  {
    var r := Clicked(s, i);
    if s[i] {
      assert forall j: nat :: j < |r| ==> !r[j];
      assert ActiveEntries(r) == {};
    } else {
      assert i in ActiveEntries(r);
    }
  }

  /** Clicking the same entry twice gives that entry back its original state
      and leaves every other entry closed. */
  lemma ClickedTwice(s: seq<bool>, i: nat)
    requires i < |s|
    ensures Clicked(Clicked(s, i), i)[i] == s[i]
    ensures forall j :: 0 <= j < |s| && j != i ==> !Clicked(Clicked(s, i), i)[j]
  {
  }
}
