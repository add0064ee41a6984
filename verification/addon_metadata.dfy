/**
  Locating the add-on's metadata literal (`get_bl_info`): the text from the
  first `{` after the first `bl_info` up to and including the first `}`
  after that brace. What Python's `eval` then makes of the text is not part
  of this module.
 */
module AddonMetadata {
  import opened Outcomes
  import opened Text

  /** The identifier that names the metadata block. */
  const Marker := "bl_info"

  /** Where the three searches of `get_bl_info` landed. */
  datatype Span = Span(marker: nat, open: nat, close: nat)

  /** `i` is the first occurrence of `sub` at or after `from`. */
  ghost predicate FirstFrom(s: string, sub: string, from: int, i: int) {
    && from <= i
    && OccursAt(s, sub, i)
    && forall j :: from <= j < i ==> !OccursAt(s, sub, j)
  }

  /**
    The three `str.index` calls of `get_bl_info`, each starting where the
    previous one matched. Each search that finds nothing is reported with
    the text it looked for.
   */
  function LocateLiteral(text: string): (r: Result<Span>)
    ensures r.Ok? ==> FirstFrom(text, Marker, 0, r.value.marker)
    ensures r.Ok? ==> FirstFrom(text, "{", r.value.marker, r.value.open)
    ensures r.Ok? ==> FirstFrom(text, "}", r.value.open, r.value.close)
    ensures r == Err(NotFound(Marker)) <==> forall j :: !OccursAt(text, Marker, j)
    ensures r.Err? ==> r.error in {NotFound(Marker), NotFound("{"), NotFound("}")}
  {
    var b :- Find(text, Marker, 0).ToResult(NotFound(Marker));
    var o :- Find(text, "{", b).ToResult(NotFound("{"));
    var c :- Find(text, "}", o).ToResult(NotFound("}"));
    Ok(Span(b, o, c))
  }

  /**
    The metadata literal `text[s_idx : e_idx + 1]`: it opens with `{`, closes
    with `}`, holds no other `}`, and is the slice of `text` the searches
    delimit.
   */
  function Literal(text: string): (r: Result<string>)
    ensures r.Ok? <==> LocateLiteral(text).Ok?
    ensures r.Err? ==> r.error == LocateLiteral(text).error
    ensures r.Ok? ==> 2 <= |r.value| && r.value[0] == '{' && r.value[|r.value| - 1] == '}'
    ensures r.Ok? ==> forall k :: 0 <= k < |r.value| - 1 ==> r.value[k] != '}'
    ensures r.Ok? ==> var sp := LocateLiteral(text).value;
      sp.close < |text| && r.value == text[sp.open..sp.close + 1]
  {
    var sp :- LocateLiteral(text);
    LiteralShape(text, sp);
    Ok(text[sp.open..sp.close + 1])
  }

  /** The slice from a `{` to the first `}` after it is a brace-delimited literal. */
  lemma LiteralShape(text: string, sp: Span)
    requires OccursAt(text, "{", sp.open)
    requires FirstFrom(text, "}", sp.open, sp.close)
    ensures sp.close < |text|
    ensures var lit := text[sp.open..sp.close + 1];
      && 2 <= |lit| && lit[0] == '{' && lit[|lit| - 1] == '}'
      && forall k :: 0 <= k < |lit| - 1 ==> lit[k] != '}'
  {
    OccursAtChar(text, '{', sp.open);
    OccursAtChar(text, '}', sp.close);
    var lit := text[sp.open..sp.close + 1];
    forall k | 0 <= k < |lit| - 1
      ensures lit[k] != '}'
    {
      OccursAtChar(text, '}', sp.open + k);
    }
  }

  /**
    `get_bl_info` fails exactly when one of its three tokens is missing in
    order: the literal is found if and only if some `bl_info` is followed,
    at or after it, by a `{`, which is followed by a `}`.
   */
  lemma LiteralFoundIff(text: string)
    ensures Literal(text).Ok? <==>
      exists b, o, c :: 0 <= b <= o <= c < |text|
        && OccursAt(text, Marker, b) && text[o] == '{' && text[c] == '}'
  {
    var r := LocateLiteral(text);
    if exists b, o, c :: 0 <= b <= o <= c < |text|
        && OccursAt(text, Marker, b) && text[o] == '{' && text[c] == '}' {
      var b, o, c :| 0 <= b <= o <= c < |text|
        && OccursAt(text, Marker, b) && text[o] == '{' && text[c] == '}';
      OccursAtChar(text, '{', o);
      OccursAtChar(text, '}', c);
      var fb := Find(text, Marker, 0);
      assert fb.Some? && fb.value <= b;
      var fo := Find(text, "{", fb.value);
      assert fo.Some? && fo.value <= o;
      var fc := Find(text, "}", fo.value);
      assert fc.Some?;
    }
    if r.Ok? {
      var sp := r.value;
      OccursAtChar(text, '{', sp.open);
      OccursAtChar(text, '}', sp.close);
      assert 0 <= sp.marker <= sp.open <= sp.close < |text|
        && OccursAt(text, Marker, sp.marker) && text[sp.open] == '{' && text[sp.close] == '}';
    }
  }
}
