/** The scan of start tags and attributes that reads the two signed documents, and the text it inverts. */
module Xml {
  import opened Wrappers
  import opened Text
  import opened Catalog

  datatype Element = Element(attributes: string, body: string)

  // ---- comments ----

  /** Where the scan goes on after the comment that opens at `start`; nowhere when it never closes. */
  function AfterComment(xml: string, start: nat): (r: string)
    requires start + 4 <= |xml|
    ensures |r| < |xml|
  {
    var after := xml[start + 4..];
    match Find(after, "-->")
    case Some(end) => after[end + 3..]
    case None => ""
  }

  function StripComments(xml: string): string
    decreases |xml|
  {
    match Find(xml, "<!--")
    case None => xml
    case Some(start) => xml[..start] + StripComments(AfterComment(xml, start))
  }

  method StripCommentsLoop(xml: string) returns (out: string)
    ensures out == StripComments(xml)
  {
    hide At, FindFrom, AfterComment;
    out := "";
    var rest := xml;
    var start := Find(rest, "<!--");
    while start.Some?
      invariant start == Find(rest, "<!--")
      invariant out + StripComments(rest) == StripComments(xml)
      decreases |rest|
    {
      var next := AfterComment(rest, start.value);
      Assoc(out, rest[..start.value], StripComments(next));
      out, rest := out + rest[..start.value], next;
      start := Find(rest, "<!--");
    }
    out := out + rest;
  }

  /** A comment that really is one goes, and what follows it is stripped in turn. */
  lemma CommentGoes(a: string, comment: string, b: string)
    requires Find(a + "<!--", "<!--") == Some(|a|) && Find(comment + "-->", "-->") == Some(|comment|)
    ensures StripComments(a + "<!--" + comment + "-->" + b) == a + StripComments(b)
  {
    hide At, FindFrom;
    var xml := a + "<!--" + comment + "-->" + b;
    var after := (comment + "-->") + b;
    FindPrefix(a + "<!--", after, "<!--");
    assert xml == (a + "<!--") + after && xml[..|a|] == a && xml[|a| + 4..] == after;
    FindPrefix(comment + "-->", b, "-->");
    assert after[|comment| + 3..] == b;
  }

  /** What is found in a text is found at the same place when more text follows. */
  lemma FindPrefix(a: string, b: string, pattern: string)
    requires Find(a, pattern).Some?
    ensures Find(a + b, pattern) == Find(a, pattern)
  {
    var i := Find(a, pattern).value;
    assert (a + b)[i..i + |pattern|] == a[i..i + |pattern|];
    forall j: nat | j < i
      ensures !At(a + b, j, pattern)
    {
      assert !At(a, j, pattern);
      assert (a + b)[j..j + |pattern|] == a[j..j + |pattern|];
    }
    FindAt(a + b, i, pattern);
  }

  // ---- start tags ----

  /** What a character does to the open quote. */
  function Requote(quote: Option<char>, c: char): Option<char> {
    if quote.None? && (c == '"' || c == '\'') then Some(c)
    else if quote == Some(c) then None
    else quote
  }

  /** The offset of the `>` that ends a start tag, quotes respected. */
  function TagEnd(text: string, quote: Option<char>): (r: Option<nat>)
    ensures r.Some? ==> r.value < |text| && text[r.value] == '>'
  {
    if text == "" then None
    else if quote.None? && text[0] == '>' then Some(0)
    else Shift(1, TagEnd(text[1..], Requote(quote, text[0])))
  }

  method TagEndLoop(text: string) returns (r: Option<nat>)
    ensures r == TagEnd(text, None)
  {
    var quote: Option<char> := None;
    assert text[0..] == text;
    for i := 0 to |text|
      invariant TagEnd(text, None) == Shift(i, TagEnd(text[i..], quote))
    {
      var c := text[i];
      assert text[i..][1..] == text[i + 1..];
      if quote.None? && (c == '"' || c == '\'') {
        quote := Some(c);
      } else if quote == Some(c) {
        quote := None;
      } else if quote.None? && c == '>' {
        return Some(i);
      }
    }
    return None;
  }

  predicate EndsName(after: string) {
    after != "" && (IsWhitespace(after[0]) || after[0] == '/' || after[0] == '>')
  }

  predicate SelfClosing(attributes: string) {
    attributes != "" && attributes[|attributes| - 1] == '/'
  }

  /** One element from the text after its tag's name: what it is, and where the search goes on. */
  function ElementAt(after: string, end: nat, tag: string): Element
    requires end < |after|
  {
    var attributes := after[..end];
    var tail := after[end + 1..];
    if SelfClosing(attributes) then Element(attributes[..end - 1], "")
    else
      var close := Find(tail, "</" + tag + ">");
      Element(attributes, if close.Some? then tail[..close.value] else tail)
  }

  /** Every element of the tag's name from `rest` on, a start tag that never closes ending the search. */
  function Elements(rest: string, tag: string): seq<Element>
    decreases |rest|, 0
  {
    match Find(rest, "<" + tag)
    case None => []
    case Some(start) => ElementsAfter(rest[start + 1 + |tag|..], tag)
  }

  function ElementsAfter(after: string, tag: string): seq<Element>
    decreases |after|, 1
  {
    if !EndsName(after) then Elements(after, tag)
    else
      match TagEnd(after, None)
      case None => []
      case Some(end) => [ElementAt(after, end, tag)] + Elements(after[end + 1..], tag)
  }

  method ElementsLoop(xml: string, tag: string) returns (out: seq<Element>)
    ensures out == Elements(xml, tag)
  {
    hide At, FindFrom, TagEnd, ElementAt;
    out := [];
    var rest := xml;
    while true
      invariant out + Elements(rest, tag) == Elements(xml, tag)
      decreases |rest|
    {
      var start := Find(rest, "<" + tag);
      if start.None? {
        return;
      }
      var after := rest[start.value + 1 + |tag|..];
      if !EndsName(after) {
        rest := after;
        continue;
      }
      var end := TagEndLoop(after);
      if end.None? {
        return;
      }
      ghost var next := Elements(after[end.value + 1..], tag);
      ghost var emitted := out + [ElementAt(after, end.value, tag)];
      assert out + ([ElementAt(after, end.value, tag)] + next) == emitted + next;
      out := out + [ElementAt(after, end.value, tag)];
      rest := after[end.value + 1..];
    }
  }

  // ---- the rules of the scan ----

  /** A start tag ends at its first `>` outside quotes. */
  lemma TagEndIsFound(plain: string, rest: string)
    requires Free(plain, '"') && Free(plain, '\'') && Free(plain, '>')
    ensures TagEnd(plain + ">" + rest, None) == Some(|plain|)
    ensures TagEnd(plain, None) == None
  {
    PlainIsPassed(plain, ">" + rest);
    PlainIsPassed(plain, "");
    assert plain + "" == plain;
    assert plain + ">" + rest == plain + (">" + rest);
  }

  /** What stands between two quotes of one kind does not end it, and nothing does behind a quote that is not closed. */
  lemma QuotedIsSkipped(plain: string, quote: char, body: string, rest: string)
    requires Free(plain, '"') && Free(plain, '\'') && Free(plain, '>')
    requires (quote == '"' || quote == '\'') && Free(body, quote)
    ensures TagEnd(plain + ([quote] + (body + ([quote] + rest))), None) == Shift(|plain| + |body| + 2, TagEnd(rest, None))
    ensures TagEnd(plain + ([quote] + body), None) == None
  {
    hide TagEnd;
    PlainIsPassed(plain, [quote] + (body + ([quote] + rest)));
    PlainIsPassed(plain, [quote] + body);
    Requoted(quote, body + ([quote] + rest), None);
    Requoted(quote, body, None);
    QuotedIsPassed(body, [quote] + rest, quote);
    Requoted(quote, rest, Some(quote));
    QuotedIsPassed(body, "", quote);
    assert body + "" == body;
    NothingEnds(quote);
  }

  lemma NothingEnds(quote: char)
    ensures TagEnd("", Some(quote)) == None
  {
  }

  lemma Requoted(quote: char, rest: string, open: Option<char>)
    requires (quote == '"' || quote == '\'') && (open.None? || open == Some(quote))
    ensures TagEnd([quote] + rest, open) == Shift(1, TagEnd(rest, if open.None? then Some(quote) else None))
  {
    Text.Tail(quote, rest);
  }

  lemma {:induction false} PlainIsPassed(a: string, b: string)
    requires Free(a, '"') && Free(a, '\'') && Free(a, '>')
    ensures TagEnd(a + b, None) == Shift(|a|, TagEnd(b, None))
  {
    if a == "" {
      assert a + b == b;
    } else {
      assert (a + b)[0] == a[0] && (a + b)[1..] == a[1..] + b;
      PlainIsPassed(a[1..], b);
    }
  }

  lemma {:induction false} QuotedIsPassed(a: string, b: string, quote: char)
    requires (quote == '"' || quote == '\'') && Free(a, quote)
    ensures TagEnd(a + b, Some(quote)) == Shift(|a|, TagEnd(b, Some(quote)))
  {
    if a == "" {
      assert a + b == b;
    } else {
      assert (a + b)[0] == a[0] && (a + b)[1..] == a[1..] + b;
      QuotedIsPassed(a[1..], b, quote);
    }
  }

  /** The name of a tag ends at whitespace, a slash or `>`: a longer name is another element's. */
  predicate NameIsWhole(after: string) {
    after != "" && (IsWhitespace(after[0]) || after[0] in "/>")
  }

  /**
   The elements of a name: none without its tag; a longer name is passed over; a tag that never ends ends the search; and the
   first one has the text up to the tag's end as its attributes, and as its body nothing if that ends in a slash, else what
   comes before its closing tag, or all there is.
   */
  lemma ElementsRules(rest: string, tag: string)
    ensures Find(rest, "<" + tag).None? ==> Elements(rest, tag) == []
    ensures Find(rest, "<" + tag).Some? ==>
              var after := rest[Find(rest, "<" + tag).value + 1 + |tag|..];
              && (!NameIsWhole(after) ==> Elements(rest, tag) == Elements(after, tag))
              && (NameIsWhole(after) && TagEnd(after, None).None? ==> Elements(rest, tag) == [])
              && (NameIsWhole(after) && TagEnd(after, None).Some? ==>
                    var end := TagEnd(after, None).value;
                    var text, tail := after[..end], after[end + 1..];
                    && |Elements(rest, tag)| > 0 && Elements(rest, tag)[1..] == Elements(tail, tag)
                    && var first := Elements(rest, tag)[0];
                       if end > 0 && after[end - 1] == '/' then first == Element(after[..end - 1], "")
                       else first.attributes == text && first.body <= tail
                            && (At(tail, |first.body|, "</" + tag + ">") || first.body == tail)
                            && forall j :: 0 <= j < |first.body| ==> !At(tail, j, "</" + tag + ">"))
  {
  }

  // ---- entities ----

  const ENTITIES := 5

  /** The predefined entities, in the order the replacements run (section 4.6 of XML 1.0). */
  function Entity(i: nat): string
    requires i < ENTITIES
  {
    if i == 0 then "&quot;" else if i == 1 then "&apos;" else if i == 2 then "&lt;" else if i == 3 then "&gt;" else "&amp;"
  }

  function Symbol(i: nat): char
    requires i < ENTITIES
  {
    if i == 0 then '"' else if i == 1 then '\'' else if i == 2 then '<' else if i == 3 then '>' else '&'
  }

  /** The replacements of the first `k` entities, one after the other over the whole text. */
  function Replacements(value: string, k: nat): string
    requires k <= ENTITIES
  {
    if k == 0 then value else Replace(Replacements(value, k - 1), Entity(k - 1), [Symbol(k - 1)])
  }

  function DecodeEntities(value: string): string {
    Replacements(value, ENTITIES)
  }

  /** Which of the first `k` entities the text starts with. */
  function Starts(value: string, k: nat): (r: Option<nat>)
    requires k <= ENTITIES
    ensures r.Some? ==> r.value < k && Entity(r.value) <= value
    ensures r.None? ==> forall i: nat :: i < k ==> !(Entity(i) <= value)
  {
    if k == 0 then None
    else
      var earlier := Starts(value, k - 1);
      if earlier.Some? then earlier
      else if Entity(k - 1) <= value then Some(k - 1)
      else None
  }

  /** One pass from left to right, never looking at what it has written. */
  function Pass(value: string, k: nat): string
    requires k <= ENTITIES
    decreases |value|
  {
    if value == "" then ""
    else
      match Starts(value, k)
      case Some(i) => [Symbol(i)] + Pass(value[|Entity(i)|..], k)
      case None => [value[0]] + Pass(value[1..], k)
  }

  lemma {:induction false} PassCopies(value: string, n: nat, k: nat)
    requires k <= ENTITIES && n <= |value|
    requires forall j: nat :: j < n ==> Starts(value[j..], k).None?
    ensures Pass(value, k) == value[..n] + Pass(value[n..], k)
  {
    hide Starts, Entity, Symbol;
    if n > 0 {
      assert value[0..] == value && Starts(value[0..], k).None?;
      forall j: nat | j < n - 1
        ensures Starts(value[1..][j..], k).None?
      {
        DropDrop(value, 1, j);
      }
      PassCopies(value[1..], n - 1, k);
      assert Pass(value, k) == [value[0]] + Pass(value[1..], k);
      hide Pass;
      DropDrop(value, 1, n - 1);
      TakeNext(value, n);
    }
  }

  /** Letters a pass has written were there to begin with. */
  lemma {:induction false} PassReflects(text: string, value: string, k: nat)
    requires k <= ENTITIES && text <= Pass(value, k)
    requires forall i: nat, j :: i < ENTITIES && 0 <= j < |text| ==> text[j] != Symbol(i)
    ensures text <= value
  {
    if text != "" {
      var passed := Pass(value, k);
      assert passed[0] == text[0];
      PassReflects(text[1..], value[1..], k);
      assert value == [value[0]] + value[1..];
    }
  }

  lemma EntityTail(i: nat)
    requires i < ENTITIES
    ensures |Entity(i)| >= 4 && Entity(i)[0] == '&'
    ensures forall m: nat, j :: m < ENTITIES && 1 <= j < |Entity(i)| ==> Entity(i)[j] != Symbol(m)
  {
  }

  lemma StartsNowhere(value: string, k: nat)
    requires k <= ENTITIES && value != "" && value[0] != '&'
    ensures Starts(value, k).None?
  {
    forall i: nat | i < k
      ensures !(Entity(i) <= value)
    {
      EntityTail(i);
    }
  }

  /** One more global replacement after a pass is the pass that knows one more entity. */
  lemma {:induction false} ReplacementExtendsPass(value: string, k: nat)
    requires k < ENTITIES
    ensures Replace(Pass(value, k), Entity(k), [Symbol(k)]) == Pass(value, k + 1)
    decreases |value|
  {
    var entity := Entity(k);
    EntityTail(k);
    if value != "" {
      var passed := Pass(value, k);
      var started := Starts(value, k);
      if started.Some? {
        assert Symbol(started.value) != '&';
        ReplacementExtendsPass(value[|Entity(started.value)|..], k);
        assert passed[1..] == Pass(value[|Entity(started.value)|..], k);
      } else if entity <= value {
        EntityIsCopied(value, k);
        ReplacementExtendsPass(value[|entity|..], k);
        assert passed[|entity|..] == Pass(value[|entity|..], k);
      } else {
        if entity <= passed {
          assert entity[1..] <= passed[1..] && passed[1..] == Pass(value[1..], k);
          PassReflects(entity[1..], value[1..], k);
        }
        ReplacementExtendsPass(value[1..], k);
        assert passed[1..] == Pass(value[1..], k);
      }
    }
  }

  lemma EntityIsCopied(value: string, k: nat)
    requires k < ENTITIES && Starts(value, k).None? && Entity(k) <= value
    ensures Pass(value, k) == Entity(k) + Pass(value[|Entity(k)|..], k)
  {
    var entity := Entity(k);
    EntityTail(k);
    forall j: nat | j < |entity|
      ensures Starts(value[j..], k).None?
    {
      if j == 0 {
        assert value[0..] == value;
      } else {
        assert value[j..][0] == entity[j] && entity[j] != Symbol(4);
        StartsNowhere(value[j..], k);
      }
    }
    PassCopies(value, |entity|, k);
    assert value[..|entity|] == entity;
  }

  lemma {:induction false} ReplacementsArePass(value: string, k: nat)
    requires k <= ENTITIES
    ensures Replacements(value, k) == Pass(value, k)
  {
    if k == 0 {
      PassOfNothing(value);
    } else {
      ReplacementsArePass(value, k - 1);
      ReplacementExtendsPass(value, k - 1);
    }
  }

  lemma {:induction false} PassOfNothing(value: string)
    ensures Pass(value, 0) == value
  {
    if value != "" {
      PassOfNothing(value[1..]);
      assert value == [value[0]] + value[1..];
    }
  }

  /** The five successive replacements decode every text exactly as one left-to-right pass does. */
  lemma DecodedInOnePass(value: string)
    ensures DecodeEntities(value) == Pass(value, ENTITIES)
  {
    ReplacementsArePass(value, ENTITIES);
  }

  /** What a writer puts in place of a character that is markup. */
  function Escape(value: string): string {
    if value == "" then ""
    else
      (if value[0] == '"' then Entity(0) else if value[0] == '\'' then Entity(1) else if value[0] == '<' then Entity(2)
       else if value[0] == '>' then Entity(3) else if value[0] == '&' then Entity(4) else [value[0]]) + Escape(value[1..])
  }

  /** Decoding inverts escaping: nothing is decoded twice. */
  lemma DecodeInvertsEscape(value: string)
    ensures DecodeEntities(Escape(value)) == value
  {
    DecodedInOnePass(Escape(value));
    PassInvertsEscape(value);
  }

  lemma {:induction false} PassInvertsEscape(value: string)
    ensures Pass(Escape(value), ENTITIES) == value
  {
    if value != "" {
      var rest := Escape(value[1..]);
      PassInvertsEscape(value[1..]);
      assert value == [value[0]] + value[1..];
      EscapeHead(value);
      hide Starts, Entity, Symbol, Escape;
      if i: nat :| i < ENTITIES && value[0] == Symbol(i) {
        EntityAlone(i, rest);
        EntityTail(i);
        assert (Entity(i) + rest)[|Entity(i)|..] == rest;
      } else {
        assert Symbol(4) == '&' by {
          AmpersandIsLast();
        }
        assert value[0] != Symbol(4);
        assert Escape(value)[1..] == rest;
        StartsNowhere(Escape(value), ENTITIES);
      }
    }
  }

  lemma AmpersandIsLast()
    ensures Symbol(4) == '&'
  {
  }

  lemma EscapeHead(value: string)
    requires value != ""
    ensures forall i: nat :: i < ENTITIES && value[0] == Symbol(i) ==> Escape(value) == Entity(i) + Escape(value[1..])
    ensures (forall i: nat :: i < ENTITIES ==> value[0] != Symbol(i)) ==> Escape(value) == [value[0]] + Escape(value[1..])
  {
    hide Entity;
    forall i: nat | i < ENTITIES && value[0] == Symbol(i)
      ensures Escape(value) == Entity(i) + Escape(value[1..])
    {
      if i == 0 {
      } else if i == 1 {
      } else if i == 2 {
      } else if i == 3 {
      } else {
        assert i == 4;
      }
    }
    if forall i: nat :: i < ENTITIES ==> value[0] != Symbol(i) {
      assert value[0] != Symbol(0) && value[0] != Symbol(1) && value[0] != Symbol(2) && value[0] != Symbol(3)
             && value[0] != Symbol(4);
    }
  }

  /** No entity is the beginning of another's text. */
  lemma EntityAlone(i: nat, rest: string)
    requires i < ENTITIES
    ensures Starts(Entity(i) + rest, ENTITIES) == Some(i)
  {
    var text := Entity(i) + rest;
    assert Entity(i) <= text;
    forall j: nat | j < ENTITIES && j != i
      ensures !(Entity(j) <= text)
    {
      assert text[1] == Entity(i)[1] && text[2] == Entity(i)[2];
      assert Entity(j)[1] != Entity(i)[1] || Entity(j)[2] != Entity(i)[2];
    }
  }

  lemma {:induction false} DecodePlain(value: string)
    requires Free(value, '&')
    ensures DecodeEntities(value) == value
  {
    ReplaceNothing(value, Entity(0), [Symbol(0)]);
    ReplaceNothing(value, Entity(1), [Symbol(1)]);
    ReplaceNothing(value, Entity(2), [Symbol(2)]);
    ReplaceNothing(value, Entity(3), [Symbol(3)]);
    ReplaceNothing(value, Entity(4), [Symbol(4)]);
    assert Replacements(value, 0) == value && Replacements(value, 1) == value && Replacements(value, 2) == value
           && Replacements(value, 3) == value && Replacements(value, 4) == value;
  }

  /** The five entities, wherever they stand; what starts none of them is copied. */
  lemma EntitiesAre(rest: string, c: char)
    ensures DecodeEntities("&quot;" + rest) == "\"" + DecodeEntities(rest)
    ensures DecodeEntities("&apos;" + rest) == "'" + DecodeEntities(rest)
    ensures DecodeEntities("&lt;" + rest) == "<" + DecodeEntities(rest)
    ensures DecodeEntities("&gt;" + rest) == ">" + DecodeEntities(rest)
    ensures DecodeEntities("&amp;" + rest) == "&" + DecodeEntities(rest)
    ensures c != '&' ==> DecodeEntities([c] + rest) == [c] + DecodeEntities(rest)
  {
    hide DecodeEntities;
    EntityIsDecoded("&quot;", '"', 0, rest);
    EntityIsDecoded("&apos;", '\'', 1, rest);
    EntityIsDecoded("&lt;", '<', 2, rest);
    EntityIsDecoded("&gt;", '>', 3, rest);
    EntityIsDecoded("&amp;", '&', 4, rest);
    if c != '&' {
      CharacterIsCopied(c, rest);
    }
  }

  lemma EntityIsDecoded(entity: string, symbol: char, i: nat, rest: string)
    requires i < ENTITIES && entity == Entity(i) && symbol == Symbol(i)
    ensures DecodeEntities(entity + rest) == [symbol] + DecodeEntities(rest)
  {
    DecodedInOnePass(entity + rest);
    DecodedInOnePass(rest);
    StartsWithEntity(i, rest);
    hide DecodeEntities, Starts, Symbol, Entity;
    assert (entity + rest)[|entity|..] == rest;
  }

  lemma StartsWithEntity(i: nat, rest: string)
    requires i < ENTITIES
    ensures Starts(Entity(i) + rest, ENTITIES) == Some(i) && Entity(i) + rest != ""
  {
    var value := Entity(i) + rest;
    assert Entity(i) <= value;
    var first := Starts(value, ENTITIES);
    assert first.Some?;
    EntitiesDiffer(first.value, i, value);
  }

  lemma EntitiesDiffer(i: nat, j: nat, value: string)
    requires i < ENTITIES && j < ENTITIES && Entity(i) <= value && Entity(j) <= value
    ensures i == j
  {
    assert Entity(i)[1] == value[1] == Entity(j)[1];
    assert Entity(i)[2] == value[2] == Entity(j)[2];
  }

  lemma CharacterIsCopied(c: char, rest: string)
    requires c != '&'
    ensures DecodeEntities([c] + rest) == [c] + DecodeEntities(rest)
  {
    DecodedInOnePass([c] + rest);
    DecodedInOnePass(rest);
    forall i: nat | i < ENTITIES
      ensures !(Entity(i) <= [c] + rest)
    {
      assert Entity(i)[0] == '&';
    }
    assert Starts([c] + rest, ENTITIES).None?;
    hide DecodeEntities, Starts, Entity;
    Text.Tail(c, rest);
  }

  // ---- attributes ----

  datatype Read = Read(key: string, text: string, rest: string)

  function ReadAt(key: string, quoted: string, end: nat): Read
    requires end + 1 <= |quoted|
  {
    Read(Trim(key), quoted[..end], TrimStart(quoted[end + 1..]))
  }

  /** One attribute off the front of trimmed attribute text: its name, its raw value and the trimmed rest. */
  function NextAttribute(rest: string): (r: Option<Read>)
    ensures r.Some? ==> |r.value.rest| < |rest|
  {
    match Find(rest, "=")
    case None => None
    case Some(eq) =>
      var start := TrimStart(rest[eq + 1..]);
      if start == "" || (start[0] != '"' && start[0] != '\'') then None
      else
        match Find(start[1..], [start[0]])
        case None => None
        case Some(end) => Some(ReadAt(rest[..eq], start[1..], end))
  }

  function AttributeFrom(rest: string, name: string, found: Option<string>): Result<Option<string>, Reason>
    decreases |rest|
  {
    if rest == "" || rest == "/" then Ok(found)
    else
      match NextAttribute(rest)
      case None => Err(CatalogIntegrityFailure)
      case Some(Read(key, value, next)) =>
        if key != name then AttributeFrom(next, name, found)
        else if found.Some? then Err(CatalogIntegrityFailure)
        else AttributeFrom(next, name, Some(DecodeEntities(value)))
  }

  function Attribute(tag: string, name: string): Result<Option<string>, Reason> {
    AttributeFrom(TrimStart(tag), name, None)
  }

  method AttributeLoop(tag: string, name: string) returns (r: Result<Option<string>, Reason>)
    ensures r == Attribute(tag, name)
  {
    var found: Option<string> := None;
    var rest := TrimStart(tag);
    while rest != "" && rest != "/"
      invariant AttributeFrom(rest, name, found) == Attribute(tag, name)
      decreases |rest|
    {
      var next := NextAttribute(rest);
      if next.None? {
        return Err(CatalogIntegrityFailure);
      }
      var Read(key, value, after) := next.value;
      if key == name {
        if found.Some? {
          return Err(CatalogIntegrityFailure);
        }
        found := Some(DecodeEntities(value));
      }
      rest := after;
    }
    return Ok(found);
  }

  /** An attribute's value stands between quotes of either kind, up to the next of that kind. */
  lemma QuotedIsRead(key: string, blank: string, quote: char, value: string, rest: string)
    requires Free(key, '=') && (forall i :: 0 <= i < |blank| ==> IsWhitespace(blank[i]))
    requires (quote == '"' || quote == '\'') && Free(value, quote)
    ensures NextAttribute(key + ['='] + (blank + [quote] + (value + [quote] + rest))) == Some(Read(Trim(key), value, TrimStart(rest)))
  {
    QuotesAreInk(quote);
    hide IsWhitespace, Trim, TrimStart, Find;
    hide NextAttribute;
    var tail := value + [quote] + rest;
    var after := blank + [quote] + tail;
    FindCharacter(key, '=', after);
    SplitAt(key, '=', after);
    BlankIsTrimmed(blank, quote, tail);
    Text.Tail(quote, tail);
    FindCharacter(value, quote, rest);
    SplitAt(value, quote, rest);
    ReadsFrom(key + ['='] + after, |key|, [quote] + tail, |value|);
  }

  lemma ReadsFrom(rest: string, eq: nat, start: string, end: nat)
    requires eq < |rest| && Find(rest, ['=']) == Some(eq) && TrimStart(rest[eq + 1..]) == start
    requires start != "" && (start[0] == '"' || start[0] == '\'') && end < |start[1..]| && Find(start[1..], [start[0]]) == Some(end)
    ensures NextAttribute(rest) == Some(Read(Trim(rest[..eq]), start[1..][..end], TrimStart(start[1..][end + 1..])))
  {
    hide Trim, TrimStart, Find;
    assert "=" == ['='];
  }

  /** A value that is not quoted makes no attribute, nor does text without a value. */
  lemma UnquotedIsRefused(key: string, blank: string, c: char, rest: string)
    requires Free(key, '=') && (forall i :: 0 <= i < |blank| ==> IsWhitespace(blank[i]))
    ensures c != '"' && c != '\'' && !IsWhitespace(c) ==> NextAttribute(key + ['='] + (blank + [c] + rest)) == None
    ensures NextAttribute(key) == None
  {
    hide IsWhitespace, Trim, TrimStart, Find;
    assert "=" == ['='];
    FindNoCharacter(key, '=');
    FindCharacter(key, '=', blank + [c] + rest);
    SplitAt(key, '=', blank + [c] + rest);
    if !IsWhitespace(c) {
      BlankIsTrimmed(blank, c, rest);
    }
  }

  lemma QuotesAreInk(quote: char)
    requires quote == '"' || quote == '\''
    ensures !IsWhitespace(quote)
  {
  }

  lemma {:induction false} BlankIsTrimmed(blank: string, c: char, rest: string)
    requires (forall i :: 0 <= i < |blank| ==> IsWhitespace(blank[i])) && !IsWhitespace(c)
    ensures TrimStart(blank + [c] + rest) == [c] + rest
  {
    hide IsWhitespace;
    var s := blank + [c] + rest;
    if blank == "" {
      assert s == [c] + rest && s[0] == c;
    } else {
      assert s[0] == blank[0] && s[1..] == blank[1..] + [c] + rest;
      BlankIsTrimmed(blank[1..], c, rest);
    }
  }

  // ---- the printed form ----

  /** An attribute as a writer has it: its name, and its value's text between the quotes. */
  datatype Pair = Pair(name: string, text: string)

  predicate PairOk(p: Pair) {
    && p.name != "" && (forall i :: 0 <= i < |p.name| ==> IsAsciiAlphanumeric(p.name[i]))
    && Free(p.text, '"')
  }

  function PrintPair(p: Pair): string {
    " " + p.name + "=\"" + p.text + "\""
  }

  function Print(pairs: seq<Pair>): string {
    if pairs == [] then "" else PrintPair(pairs[0]) + Print(pairs[1..])
  }

  /** What reading an attribute means on the list the text was printed from. */
  function Choose(pairs: seq<Pair>, name: string, found: Option<string>): Result<Option<string>, Reason> {
    if pairs == [] then Ok(found)
    else if pairs[0].name != name then Choose(pairs[1..], name, found)
    else if found.Some? then Err(CatalogIntegrityFailure)
    else Choose(pairs[1..], name, Some(DecodeEntities(pairs[0].text)))
  }

  lemma TrimStartOf(c: char, s: string)
    requires !IsWhitespace(c)
    ensures TrimStart([' '] + ([c] + s)) == [c] + s && TrimStart([c] + s) == [c] + s
  {
    assert IsWhitespace(' ');
    hide IsWhitespace;
    Tail(' ', [c] + s);
    Tail(c, s);
  }

  lemma QuoteIsInk()
    ensures !IsWhitespace('"')
  {
  }

  lemma TrimOfWord(word: string)
    requires word != "" && forall i :: 0 <= i < |word| ==> IsAsciiAlphanumeric(word[i])
    ensures Trim(word) == word && TrimStart(word) == word
  {
    assert !IsWhitespace(word[0]) && !IsWhitespace(word[|word| - 1]);
  }

  lemma {:induction false} TrimStartOfPrint(pairs: seq<Pair>)
    requires forall p <- pairs :: PairOk(p)
    ensures pairs == [] ==> TrimStart(Print(pairs)) == ""
    ensures pairs != [] ==> TrimStart(Print(pairs)) == Print(pairs)[1..]
  {
    if pairs != [] {
      var p := pairs[0];
      assert PairOk(p) && !IsWhitespace(p.name[0]);
      var printed := Print(pairs);
      assert printed == [' '] + printed[1..] && printed[1..] == [p.name[0]] + printed[2..];
      TrimStartOf(p.name[0], printed[2..]);
    }
  }

  /** Reading one printed attribute takes exactly its name and text and leaves the rest of the list. */
  lemma NextOfPrint(pairs: seq<Pair>)
    requires pairs != [] && forall p <- pairs :: PairOk(p)
    ensures NextAttribute(Print(pairs)[1..]) == Some(Read(pairs[0].name, pairs[0].text, TrimStart(Print(pairs[1..]))))
  {
    hide NextAttribute, TrimStart, Print;
    assert PairOk(pairs[0]);
    NextOf(pairs[0], Print(pairs[1..]));
    PrintShape(pairs);
  }

  lemma PrintShape(pairs: seq<Pair>)
    requires pairs != []
    ensures |Print(pairs)| > 2
    ensures Print(pairs)[1..] ==
            pairs[0].name + ['='] + (['"'] + (pairs[0].text + ['"'] + Print(pairs[1..])))
  {
    var p, after := pairs[0], Print(pairs[1..]);
    assert PrintPair(p) + after == [' '] + (p.name + ['='] + (['"'] + (p.text + ['"'] + after)));
  }

  lemma NextOf(p: Pair, after: string)
    requires PairOk(p)
    ensures NextAttribute(p.name + ['='] + (['"'] + (p.text + ['"'] + after))) == Some(Read(p.name, p.text, TrimStart(after)))
  {
    NameIsWord(p);
    hide At, FindFrom, Find, IsWhitespace, Trim, TrimStart, NextAttribute;
    var quoted := p.text + ['"'] + after;
    var start := ['"'] + quoted;
    FindCharacter(p.name, '=', start);
    assert Free(p.text, '"');
    FindCharacter(p.text, '"', after);
    hide Free, PairOk;
    TrimOfWord(p.name);
    QuoteIsInk();
    TrimStartOf('"', quoted);
    SplitAt(p.name, '=', start);
    Tail('"', quoted);
    SplitAt(p.text, '"', after);
    NextBy(p.name + ['='] + start, |p.name|, start, |p.text|);
  }

  /** The steps of reading one attribute. */
  lemma NextBy(rest: string, eq: nat, start: string, end: nat)
    requires Find(rest, ['=']) == Some(eq) && start == TrimStart(rest[eq + 1..])
    requires start != "" && start[0] == '"' && Find(start[1..], ['"']) == Some(end)
    ensures NextAttribute(rest) == Some(ReadAt(rest[..eq], start[1..], end))
  {
    hide At, FindFrom, Find, Trim, TrimStart, ReadAt;
    assert "=" == ['='];
  }

  lemma NameIsWord(p: Pair)
    requires PairOk(p)
    ensures Free(p.name, '=') && p.name != "" && forall i :: 0 <= i < |p.name| ==> IsAsciiAlphanumeric(p.name[i])
  {
  }

  lemma {:induction false} ReadsPrintedFrom(pairs: seq<Pair>, name: string, found: Option<string>)
    requires forall p <- pairs :: PairOk(p)
    ensures AttributeFrom(TrimStart(Print(pairs)), name, found) == Choose(pairs, name, found)
  {
    hide NextAttribute, Print, Trim, TrimStart;
    TrimStartOfPrint(pairs);
    if pairs != [] {
      var p := pairs[0];
      PrintShape(pairs);
      NextOfPrint(pairs);
      ReadsPrintedFrom(pairs[1..], name, if p.name == name then Some(DecodeEntities(p.text)) else found);
    }
  }

  /** The attribute scan of a printed list is the lookup in the list, decoded; a repeated name is refused. */
  lemma ReadsPrinted(pairs: seq<Pair>, name: string)
    requires forall p <- pairs :: PairOk(p)
    ensures Attribute(Print(pairs), name) == Choose(pairs, name, None)
  {
    ReadsPrintedFrom(pairs, name, None);
  }

  lemma {:induction false} ChooseKeeps(pairs: seq<Pair>, name: string, found: Option<string>)
    requires forall p <- pairs :: p.name != name
    ensures Choose(pairs, name, found) == Ok(found)
  {
    if pairs != [] {
      ChooseKeeps(pairs[1..], name, found);
    }
  }

  /** In an escaped list with distinct names every value is recovered, and no other name is there. */
  lemma {:induction false} EscapedListIsRecovered(names: seq<string>, values: seq<string>, name: string)
    requires |names| == |values| && forall i, j :: 0 <= i < j < |names| ==> names[i] != names[j]
    requires forall n <- names :: n != "" && forall i :: 0 <= i < |n| ==> IsAsciiAlphanumeric(n[i])
    ensures var pairs := seq(|names|, i requires 0 <= i < |names| => Pair(names[i], Escape(values[i])));
            && (name !in names ==> Attribute(Print(pairs), name) == Ok(None))
            && (forall i :: 0 <= i < |names| && names[i] == name ==> Attribute(Print(pairs), name) == Ok(Some(values[i])))
  {
    var pairs := seq(|names|, i requires 0 <= i < |names| => Pair(names[i], Escape(values[i])));
    forall p <- pairs
      ensures PairOk(p)
    {
      var i :| 0 <= i < |pairs| && pairs[i] == p;
      EscapedIsFree(values[i]);
      assert names[i] in names;
    }
    ReadsPrinted(pairs, name);
    if i :| 0 <= i < |names| && names[i] == name {
      DecodeInvertsEscape(values[i]);
      ChooseFinds(pairs, name, i);
    } else {
      ChooseKeeps(pairs, name, None);
    }
  }

  lemma {:induction false} ChooseFinds(pairs: seq<Pair>, name: string, i: nat)
    requires i < |pairs| && pairs[i].name == name
    requires forall j, k :: 0 <= j < k < |pairs| ==> pairs[j].name != pairs[k].name
    ensures Choose(pairs, name, None) == Ok(Some(DecodeEntities(pairs[i].text)))
  {
    if i == 0 {
      ChooseKeeps(pairs[1..], name, Some(DecodeEntities(pairs[0].text)));
    } else {
      ChooseFinds(pairs[1..], name, i - 1);
    }
  }

  lemma {:induction false} EscapedIsFree(value: string)
    ensures Free(Escape(value), '"') && Free(Escape(value), '<')
  {
    if value != "" {
      EscapedIsFree(value[1..]);
    }
  }
}
