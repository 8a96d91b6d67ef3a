/** Placeholder expansion by a loop over percent signs, and as one pass over the characters. */
module Template {
  import opened Wrappers
  import opened Text

  /** What an installation is named by, and the known folders of the machine. */
  datatype Context = Context(installRoot: string, version: string, folders: string -> Option<string>)

  function UpperOf(c: char): char {
    if 'a' <= c <= 'z' then (c as int - 32) as char else c
  }

  function Upper(s: string): (r: string)
    ensures |r| == |s| && forall i :: 0 <= i < |s| ==> r[i] == UpperOf(s[i])
  {
    if s == "" then "" else [UpperOf(s[0])] + Upper(s[1..])
  }

  function Lookup(context: Context, name: string): Option<string> {
    var key := Upper(name);
    if key == "INSTALLROOT" then Some(context.installRoot)
    else if key == "VERSION" then Some(context.version)
    else context.folders(key)
  }

  predicate Plausible(name: string) {
    name != "" && forall i :: 0 <= i < |name| ==> IsAsciiAlphanumeric(name[i]) || name[i] == '_' || name[i] == '(' || name[i] == ')'
  }

  datatype Hit = Hit(value: string, end: nat)

  /** The known placeholder the text after a `%` opens, if it does. */
  function Placeholder(after: string, context: Context): (r: Option<Hit>)
    ensures r.Some? ==> r.value.end < |after| && after[r.value.end] == '%'
  {
    match Find(after, "%")
    case None => None
    case Some(end) =>
      assert after[end..end + 1] == "%";
      if !Plausible(after[..end]) then None
      else
        var value := Lookup(context, after[..end]);
        if value.None? then None else Some(Hit(value.value, end))
  }

  /** One pass: a placeholder becomes its value, every other character stays, and what was put in is not looked at. */
  function Expand(template: string, context: Context): string
    decreases |template|
  {
    if template == "" then ""
    else if template[0] != '%' then [template[0]] + Expand(template[1..], context)
    else
      match Placeholder(template[1..], context)
      case Some(hit) => hit.value + Expand(template[1..][hit.end + 1..], context)
      case None => "%" + Expand(template[1..], context)
  }

  /** The expansion's own loop, from one `%` to the next. */
  method ExpandFor(template: string, context: Context) returns (out: string)
    ensures out == Expand(template, context)
  {
    out := "";
    var rest := template;
    hide *;
    NothingBefore(Expand(template, context));
    while true
      invariant Expand(template, context) == out + Expand(rest, context)
      decreases |rest|
    {
      var found := Find(rest, "%");
      if found.None? {
        break;
      }
      var start := found.value;
      PercentAt(rest, start);
      var after := rest[start + 1..];
      ExpandToPercent(rest, start, context);
      var placeholder := Placeholder(after, context);
      if placeholder.Some? {
        var hit := placeholder.value;
        Assoc(out, rest[..start], hit.value + Expand(after[hit.end + 1..], context));
        Assoc(out + rest[..start], hit.value, Expand(after[hit.end + 1..], context));
        out := out + rest[..start] + hit.value;
        rest := after[hit.end + 1..];
      } else {
        assert rest[..start + 1] == rest[..start] + "%";
        Assoc(rest[..start], "%", Expand(after, context));
        Assoc(out, rest[..start + 1], Expand(after, context));
        out := out + rest[..start + 1];
        rest := after;
      }
    }
    NoPercent(rest, context);
    out := out + rest;
  }

  lemma PercentAt(rest: string, start: nat)
    requires Find(rest, "%") == Some(start)
    ensures start < |rest| && rest[start] == '%' && Free(rest[..start], '%')
  {
    assert rest[start..start + 1] == "%";
    forall j | 0 <= j < start
      ensures rest[j] != '%'
    {
      assert !At(rest, j, "%");
      assert rest[j..j + 1] == [rest[j]];
    }
  }

  lemma NoPercent(rest: string, context: Context)
    requires Find(rest, "%") == None
    ensures Expand(rest, context) == rest
  {
    forall j | 0 <= j < |rest|
      ensures rest[j] != '%'
    {
      assert !At(rest, j, "%");
      assert rest[j..j + 1] == [rest[j]];
    }
    hide Placeholder;
    LiteralStays(rest, "", context);
    assert rest + "" == rest;
  }

  /** Text without a `%` is copied. */
  lemma {:induction false} LiteralStays(a: string, b: string, context: Context)
    requires Free(a, '%')
    ensures Expand(a + b, context) == a + Expand(b, context)
  {
    hide Placeholder;
    if a == "" {
      NothingBefore(b);
      NothingBefore(Expand(b, context));
    } else {
      assert (a + b)[0] == a[0] && (a + b)[1..] == a[1..] + b;
      LiteralStays(a[1..], b, context);
      assert a == [a[0]] + a[1..];
      Assoc([a[0]], a[1..], Expand(b, context));
    }
  }

  lemma ExpandToPercent(rest: string, start: nat, context: Context)
    requires start < |rest| && rest[start] == '%' && Free(rest[..start], '%')
    ensures var after := rest[start + 1..];
            var placeholder := Placeholder(after, context);
            Expand(rest, context) == rest[..start]
                                     + if placeholder.Some? then placeholder.value.value + Expand(after[placeholder.value.end + 1..], context)
                                       else "%" + Expand(after, context)
  {
    hide Placeholder;
    var a, b := rest[..start], rest[start..];
    assert rest == a + b && b[1..] == rest[start + 1..] && b[0] == '%';
    LiteralStays(a, b, context);
  }

  // ---- a template written from pieces ----

  datatype Piece = Literal(text: string) | Hole(name: string)

  predicate PieceOk(piece: Piece, context: Context) {
    match piece
    case Literal(text) => Free(text, '%')
    case Hole(name) => Plausible(name) && Lookup(context, name).Some?
  }

  function Write(pieces: seq<Piece>): string {
    if pieces == [] then ""
    else (match pieces[0] case Literal(text) => text case Hole(name) => ("%" + name) + "%") + Write(pieces[1..])
  }

  function Fill(pieces: seq<Piece>, context: Context): string {
    if pieces == [] then ""
    else
      (match pieces[0]
       case Literal(text) => text
       case Hole(name) => var value := Lookup(context, name); if value.Some? then value.value else "") + Fill(pieces[1..], context)
  }

  lemma PlausibleIsFree(name: string)
    requires Plausible(name)
    ensures Free(name, '%')
  {
  }

  lemma HoleIsFilled(name: string, rest: string, context: Context)
    requires Plausible(name) && Lookup(context, name).Some?
    ensures Expand("%" + name + "%" + rest, context) == Lookup(context, name).value + Expand(rest, context)
  {
    var after := name + "%" + rest;
    PlausibleIsFree(name);
    FindCharacter(name, '%', rest);
    SplitAt(name, '%', rest);
    hide Find, Plausible, Lookup;
    assert Placeholder(after, context) == Some(Hit(Lookup(context, name).value, |name|));
    hide Placeholder;
    assert "%" + name + "%" + rest == ['%'] + after;
    Text.Tail('%', after);
  }

  /** Every template written from `%`-free literals and known placeholders expands to the literals and the values, in order. */
  lemma {:induction false} ExpandInvertsWrite(pieces: seq<Piece>, context: Context)
    requires forall piece <- pieces :: PieceOk(piece, context)
    ensures Expand(Write(pieces), context) == Fill(pieces, context)
  {
    if pieces != [] {
      assert PieceOk(pieces[0], context);
      var rest := Write(pieces[1..]);
      hide Plausible, Lookup, Expand;
      ExpandInvertsWrite(pieces[1..], context);
      match pieces[0]
      case Literal(text) => LiteralStays(text, rest, context);
      case Hole(name) => HoleIsFilled(name, rest, context);
    }
  }

  /** The name with each letter in either case. */
  predicate Spells(name: string, upper: string, lower: string)
    requires |upper| == |lower|
  {
    |name| == |upper| && forall i :: 0 <= i < |name| ==> name[i] == upper[i] || name[i] == lower[i]
  }

  /** The root's and the version's placeholder in any case of their letters, and a known folder by its name. */
  lemma PlaceholdersMean(name: string, rest: string, context: Context)
    ensures Spells(name, "INSTALLROOT", "installroot") ==> Expand("%" + name + "%" + rest, context) == context.installRoot + Expand(rest, context)
    ensures Spells(name, "VERSION", "version") ==> Expand("%" + name + "%" + rest, context) == context.version + Expand(rest, context)
    ensures Plausible(name) && (forall i :: 0 <= i < |name| ==> !('a' <= name[i] <= 'z')) && context.folders(name).Some?
            && name != "INSTALLROOT" && name != "VERSION" ==>
              Expand("%" + name + "%" + rest, context) == context.folders(name).value + Expand(rest, context)
  {
    UpperSpells(name);
    if Spells(name, "INSTALLROOT", "installroot") || Spells(name, "VERSION", "version") {
      HoleIsFilled(name, rest, context);
    } else if Plausible(name) && (forall i :: 0 <= i < |name| ==> !('a' <= name[i] <= 'z')) && context.folders(name).Some? {
      assert Upper(name) == name;
      HoleIsFilled(name, rest, context);
    }
  }

  lemma UpperSpells(name: string)
    ensures Spells(name, "INSTALLROOT", "installroot") ==> Upper(name) == "INSTALLROOT" && Plausible(name)
    ensures Spells(name, "VERSION", "version") ==> Upper(name) == "VERSION" && Plausible(name)
  {
    if Spells(name, "INSTALLROOT", "installroot") {
      SpelledIsUpper(name, "INSTALLROOT", "installroot");
    }
    if Spells(name, "VERSION", "version") {
      SpelledIsUpper(name, "VERSION", "version");
    }
  }

  lemma SpelledIsUpper(name: string, upper: string, lower: string)
    requires |upper| == |lower| && Spells(name, upper, lower)
    requires name != "" && forall i :: 0 <= i < |upper| ==> 'A' <= upper[i] <= 'Z' && lower[i] as int == upper[i] as int + 32
    ensures Upper(name) == upper && Plausible(name)
  {
    assert forall i :: 0 <= i < |name| ==> Upper(name)[i] == UpperOf(name[i]);
  }

  /**
   The text after a `%` opens a placeholder: up to the next `%` a name of letters, digits, underscores and parentheses that
   is the root's, the version's or a known folder's.
   */
  ghost predicate Opens(after: string, end: nat, context: Context) {
    && 0 < end < |after| && after[end] == '%'
    && (forall i :: 0 <= i < end ==> '0' <= after[i] <= '9' || 'a' <= after[i] <= 'z' || 'A' <= after[i] <= 'Z' || after[i] in "_()")
    && var name := Upper(after[..end]); (name == "INSTALLROOT" || name == "VERSION" || context.folders(name).Some?)
  }

  ghost predicate OpensSome(after: string, context: Context) {
    exists end: nat :: Opens(after, end, context)
  }

  lemma PlaceholderOpens(after: string, context: Context)
    ensures Placeholder(after, context).Some? <==> OpensSome(after, context)
  {
    if end: nat :| Opens(after, end, context) {
      assert Free(after[..end], '%');
      FindCharacter(after[..end], '%', after[end + 1..]);
      assert after == after[..end] + ['%'] + after[end + 1..];
      hide Upper;
    }
    if Placeholder(after, context).Some? {
      var end := Placeholder(after, context).value.end;
      assert Opens(after, end, context);
    }
  }

  /** Whether some `%` of the template opens a known placeholder. */
  ghost predicate OpensOne(template: string, context: Context) {
    exists i :: 0 <= i < |template| && template[i] == '%' && OpensSome(template[i + 1..], context)
  }

  /** A template in which no `%` opens a known placeholder is what it was. */
  lemma UnknownStays(template: string, context: Context)
    requires !OpensOne(template, context)
    ensures Expand(template, context) == template
  {
    hide Placeholder, OpensSome;
    forall i | 0 <= i < |template| && template[i] == '%'
      ensures Placeholder(template[i + 1..], context).None?
    {
      PlaceholderOpens(template[i + 1..], context);
    }
    NoneStays(template, context);
  }

  lemma {:induction false} NoneStays(template: string, context: Context)
    requires forall i :: 0 <= i < |template| && template[i] == '%' ==> Placeholder(template[i + 1..], context).None?
    ensures Expand(template, context) == template
  {
    hide Placeholder;
    if template != "" {
      assert template == [template[0]] + template[1..];
      assert template[0] == '%' ==> Placeholder(template[0 + 1..], context).None?;
      forall i | 0 <= i < |template[1..]| && template[1..][i] == '%'
        ensures Placeholder(template[1..][i + 1..], context).None?
      {
        DropDrop(template, 1, i + 1);
        assert template[i + 1] == '%';
        assert Placeholder(template[(i + 1) + 1..], context).None?;
      }
      NoneStays(template[1..], context);
    }
  }
}
