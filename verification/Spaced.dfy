/** Tags laid out by hand: any whitespace between attributes, before the end of a tag and between tags. */
module Spaced {
  import opened Wrappers
  import opened Text
  import opened Catalog
  import opened Xml
  import opened BlockMap

  predicate IsSpace(s: string) {
    forall i :: 0 <= i < |s| ==> s[i] == ' ' || s[i] == '\n'
  }

  /** Attributes, each behind its own whitespace, and the whitespace behind the last. */
  function Layout(pairs: seq<Pair>, leads: seq<string>, tail: string): string
    requires |leads| == |pairs|
  {
    if pairs == [] then tail
    else leads[0] + (pairs[0].name + ['='] + (['"'] + (pairs[0].text + ['"'] + Layout(pairs[1..], leads[1..], tail))))
  }

  predicate LayoutOk(pairs: seq<Pair>, leads: seq<string>, tail: string) {
    && |leads| == |pairs| && PairsOk(pairs) && IsSpace(tail)
    && (forall lead <- leads :: IsSpace(lead)) && leads[0] != "" && leads[0][0] == ' '
  }

  lemma {:induction false} SpaceIsTrimmed(lead: string, s: string)
    requires IsSpace(lead)
    ensures TrimStart(lead + s) == TrimStart(s)
  {
    if lead == "" {
      NothingBefore(s);
    } else {
      assert (lead + s)[0] == lead[0] && (lead + s)[1..] == lead[1..] + s;
      SpaceIsTrimmed(lead[1..], s);
    }
  }

  lemma InkStays(c: char, s: string)
    requires !IsWhitespace(c)
    ensures TrimStart([c] + s) == [c] + s
  {
    Text.Tail(c, s);
  }

  /** One attribute, its name first: trimming takes the whitespace before it and nothing else. */
  lemma TrimmedToName(lead: string, p: Pair, after: string)
    requires IsSpace(lead) && PairOk(p)
    ensures var s := p.name + ['='] + (['"'] + (p.text + ['"'] + after)); s != "" && s != "/" && TrimStart(lead + s) == s
  {
    var s := p.name + ['='] + (['"'] + (p.text + ['"'] + after));
    assert !IsWhitespace(p.name[0]);
    SpaceIsTrimmed(lead, s);
    assert s == [s[0]] + s[1..] && s[0] == p.name[0] && |s| > 1;
    hide IsWhitespace, TrimStart;
    InkStays(s[0], s[1..]);
  }

  lemma AttributeStep(rest: string, read: Read, name: string, found: Option<string>)
    requires rest != "" && rest != "/" && NextAttribute(rest) == Some(read)
    ensures AttributeFrom(rest, name, found) ==
            if read.key != name then AttributeFrom(read.rest, name, found)
            else if found.Some? then Err(CatalogIntegrityFailure)
            else AttributeFrom(read.rest, name, Some(DecodeEntities(read.text)))
  {
    hide NextAttribute, DecodeEntities;
  }

  lemma {:induction false} ReadsLayoutFrom(pairs: seq<Pair>, leads: seq<string>, tail: string, name: string, found: Option<string>)
    requires |leads| == |pairs| && (forall p <- pairs :: PairOk(p)) && (forall lead <- leads :: IsSpace(lead)) && IsSpace(tail)
    ensures AttributeFrom(TrimStart(Layout(pairs, leads, tail)), name, found) == Choose(pairs, name, found)
    decreases pairs
  {
    if pairs == [] {
      SpaceIsTrimmed(tail, "");
      assert tail + "" == tail;
    } else {
      var p, after := pairs[0], Layout(pairs[1..], leads[1..], tail);
      var s := p.name + ['='] + (['"'] + (p.text + ['"'] + after));
      assert PairOk(p) && IsSpace(leads[0]);
      assert Layout(pairs, leads, tail) == leads[0] + s;
      ReadsLayoutFrom(pairs[1..], leads[1..], tail, name, if p.name == name then Some(DecodeEntities(p.text)) else found);
      hide NextAttribute, Layout, TrimStart, DecodeEntities, PairOk, AttributeFrom;
      TrimmedToName(leads[0], p, after);
      NextOf(p, after);
      AttributeStep(s, Read(p.name, p.text, TrimStart(after)), name, found);
    }
  }

  /** The attribute scan of a laid-out list is the lookup in the list. */
  lemma ReadsLayout(pairs: seq<Pair>, leads: seq<string>, tail: string, name: string)
    requires LayoutOk(pairs, leads, tail)
    ensures Attribute(Layout(pairs, leads, tail), name) == Choose(pairs, name, None)
  {
    hide Layout, AttributeFrom, TrimStart;
    ReadsLayoutFrom(pairs, leads, tail, name, None);
  }

  // ---- the tag ----

  lemma HeadIsInertToo(lead: string, p: Pair)
    requires IsSpace(lead) && PairOk(p)
    ensures var head := lead + p.name + ['=']; forall i :: 0 <= i < |head| ==> Inert(head[i], None)
  {
    var head := lead + p.name + ['='];
    forall i | 0 <= i < |head|
      ensures Inert(head[i], None)
    {
      if |lead| <= i < |lead| + |p.name| {
        assert head[i] == p.name[i - |lead|];
      }
    }
  }

  lemma SpaceIsInert(tail: string)
    requires IsSpace(tail)
    ensures forall i :: 0 <= i < |tail| ==> Inert(tail[i], None)
  {
  }

  lemma OneAttribute(lead: string, p: Pair, after: string, rest: string)
    ensures lead + (p.name + ['='] + (['"'] + (p.text + ['"'] + after))) + rest
            == (lead + p.name + ['=']) + (['"'] + (p.text + (['"'] + (after + rest))))
    ensures |lead + (p.name + ['='] + (['"'] + (p.text + ['"'] + after)))| == |lead + p.name + ['=']| + |p.text| + 2 + |after|
  {
  }

  lemma {:induction false} TagEndLayout(pairs: seq<Pair>, leads: seq<string>, tail: string, rest: string)
    requires |leads| == |pairs| && (forall p <- pairs :: PairOk(p)) && (forall lead <- leads :: IsSpace(lead)) && IsSpace(tail)
    ensures TagEnd(Layout(pairs, leads, tail) + rest, None) == Shift(|Layout(pairs, leads, tail)|, TagEnd(rest, None))
    decreases pairs
  {
    if pairs == [] {
      SpaceIsInert(tail);
      TagEndInert(tail, rest, None);
    } else {
      var p, after := pairs[0], Layout(pairs[1..], leads[1..], tail);
      var head := leads[0] + p.name + ['='];
      assert PairOk(p) && IsSpace(leads[0]) && Free(p.text, '"');
      assert Layout(pairs, leads, tail) == leads[0] + (p.name + ['='] + (['"'] + (p.text + ['"'] + after)));
      TagEndLayout(pairs[1..], leads[1..], tail, rest);
      HeadIsInertToo(leads[0], p);
      hide *;
      OneAttribute(leads[0], p, after, rest);
      TagEndInert(head, ['"'] + (p.text + (['"'] + (after + rest))), None);
      TagEndValue(p.text, after + rest);
      ShiftsAdd(|head|, |p.text| + 2, TagEnd(after + rest, None));
      ShiftsAdd(|head| + |p.text| + 2, |after|, TagEnd(rest, None));
    }
  }

  lemma ShiftsAdd(m: nat, n: nat, found: Option<nat>)
    ensures Shift(m, Shift(n, found)) == Shift(m + n, found)
  {
  }

  lemma {:induction false} LayoutFree(pairs: seq<Pair>, leads: seq<string>, tail: string)
    requires |leads| == |pairs| && (forall p <- pairs :: PairOk(p) && Free(p.text, '<')) && (forall lead <- leads :: IsSpace(lead)) && IsSpace(tail)
    ensures Free(Layout(pairs, leads, tail), '<')
    decreases pairs
  {
    if pairs != [] {
      var p, after := pairs[0], Layout(pairs[1..], leads[1..], tail);
      LayoutFree(pairs[1..], leads[1..], tail);
      assert PairOk(p) && IsSpace(leads[0]);
      NameIsFree(p);
      SpaceIsFree(leads[0]);
      hide Layout, PairOk, IsSpace;
      PieceIsFree(leads[0], p.name, p.text, after);
    }
  }

  lemma NameIsFree(p: Pair)
    requires PairOk(p)
    ensures Free(p.name, '<')
  {
  }

  lemma SpaceIsFree(lead: string)
    requires IsSpace(lead)
    ensures Free(lead, '<')
  {
  }

  lemma PieceIsFree(lead: string, name: string, text: string, after: string)
    requires Free(lead, '<') && Free(name, '<') && Free(text, '<') && Free(after, '<')
    ensures Free(lead + (name + ['='] + (['"'] + (text + ['"'] + after))), '<')
  {
  }

  function ClosedLayout(tag: string, pairs: seq<Pair>, leads: seq<string>, tail: string): string
    requires |leads| == |pairs|
  {
    "<" + tag + Layout(pairs, leads, tail) + "/>"
  }

  lemma LayoutStarts(pairs: seq<Pair>, leads: seq<string>, tail: string, rest: string)
    requires LayoutOk(pairs, leads, tail)
    ensures EndsName(Layout(pairs, leads, tail) + rest)
  {
    hide Layout;
    LayoutStartsWithSpace(pairs, leads, tail);
    SpaceEndsName(Layout(pairs, leads, tail) + rest);
  }

  lemma LayoutStartsWithSpace(pairs: seq<Pair>, leads: seq<string>, tail: string)
    requires LayoutOk(pairs, leads, tail)
    ensures Layout(pairs, leads, tail) != "" && Layout(pairs, leads, tail)[0] == ' '
  {
  }

  /** A self-closing tag laid out by hand reads as an element without a body. */
  lemma ReadsClosedLayout(tag: string, pairs: seq<Pair>, leads: seq<string>, tail: string, rest: string)
    requires LayoutOk(pairs, leads, tail)
    ensures Elements(ClosedLayout(tag, pairs, leads, tail) + rest, tag) == [Element(Layout(pairs, leads, tail), "")] + Elements(rest, tag)
  {
    var printed := Layout(pairs, leads, tail);
    hide Layout, Elements, Find, TagEnd, EndsName, ElementAt;
    TagEndLayout(pairs, leads, tail, "/>" + rest);
    SlashEnds(rest);
    AfterName(tag, printed, "/>", rest);
    FindHits(ClosedLayout(tag, pairs, leads, tail), rest, "<" + tag);
    var after := printed + ("/>" + rest);
    LayoutStarts(pairs, leads, tail, "/>" + rest);
    ClosedElement(printed, rest, tag);
    ElementsBy(ClosedLayout(tag, pairs, leads, tail) + rest, tag, after, |printed| + 1);
  }

  lemma ClosedLayoutIsTag(tag: string, pairs: seq<Pair>, leads: seq<string>, tail: string)
    requires LayoutOk(pairs, leads, tail) && IsWord(tag) && tag != ""
    ensures IsTag(ClosedLayout(tag, pairs, leads, tail)) && ClosedLayout(tag, pairs, leads, tail)[1] == tag[0]
  {
    LayoutFree(pairs, leads, tail);
    WordFree(tag);
    hide Layout, IsWord;
    assert ClosedLayout(tag, pairs, leads, tail)[1..] == tag + Layout(pairs, leads, tail) + "/>";
  }

  // ---- whitespace between tags ----

  lemma SpacedTag(piece: string, space: string)
    requires IsTag(piece) && IsSpace(space)
    ensures IsTag(piece + space) && |piece + space| >= |piece|
    ensures |piece| > 1 ==> (piece + space)[1] == piece[1]
  {
    assert (piece + space)[1..] == piece[1..] + space;
  }

  /** Whitespace before a tag moves what is found by its length. */
  lemma FindBehindSpace(space: string, rest: string, pattern: string)
    requires IsSpace(space) && IsTag(pattern)
    ensures Find(space + rest, pattern) == Shift(|space|, Find(rest, pattern))
  {
    var text := space + rest;
    forall j: nat
      ensures j < |space| ==> !At(text, j, pattern)
      ensures At(text, |space| + j, pattern) <==> At(rest, j, pattern)
    {
      if j < |space| && j + |pattern| <= |text| {
        assert text[j..j + |pattern|][0] == space[j];
      }
      AtShift(space, rest, j, pattern);
    }
    hide At, FindFrom;
    var found := Find(rest, pattern);
    if found.Some? {
      forall j: nat | j < |space| + found.value
        ensures !At(text, j, pattern)
      {
        if j >= |space| {
          assert !At(rest, j - |space|, pattern);
          assert At(text, |space| + (j - |space|), pattern) <==> At(rest, j - |space|, pattern);
        }
      }
      FindAt(text, |space| + found.value, pattern);
    } else {
      forall j: nat
        ensures !At(text, j, pattern)
      {
        if j >= |space| {
          assert At(text, |space| + (j - |space|), pattern) <==> At(rest, j - |space|, pattern);
        }
      }
    }
  }

  lemma ElementsBehindSpace(space: string, rest: string, tag: string)
    requires IsSpace(space) && Free(tag, '<')
    ensures Elements(space + rest, tag) == Elements(rest, tag)
  {
    hide *;
    IsTagOf(tag);
    FindBehindSpace(space, rest, "<" + tag);
    ElementsByFind(space + rest, tag);
    ElementsByFind(rest, tag);
    var found := Find(rest, "<" + tag);
    ShiftBy(|space|, found);
    if found.Some? {
      DropShift(space, rest, found.value + 1 + |tag|);
    }
  }
}
