/**
 * The `extras` field of the order read schemas (`GetOrderSchema.get_extras` and
 * `GetOrderNonAdminSchema.get_extras`). The stored text is first decoded as JSON; when
 * decoding fails, a fallback parser reads brace-wrapped, comma-separated text such as
 * `{"a",b,'c'}` as a list of strings.
 */
module Extras {
  import opened Wrappers
  import opened Text

  /** A decoded JSON value, as far as `get_extras` looks at it: strings (what the fallback
      produces), lists, and everything else (numbers, objects, booleans, null). */
  datatype Json = JString(str: string) | JList(elems: seq<Json>) | JOther

  /** One segment of the fallback: white space trimmed, then at most one pair of matching
      outer double or single quotes removed; the result is not trimmed again. */
  function CleanItem(segment: string): string
  {
    var item := Strip(segment);
    if StartsWith(item, '"') && EndsWith(item, '"') then Inner(item)
    else if StartsWith(item, '\'') && EndsWith(item, '\'') then Inner(item)
    else item
  }

  /** The text the fallback splits: trimmed, then one leading `{` and one trailing `}`
      removed, only when both are there. */
  function Unbraced(raw: string): string
  {
    var t := Strip(raw);
    if StartsWith(t, '{') && EndsWith(t, '}') then Inner(t) else t
  }

  /** The comma-separated segments of the fallback, in order. */
  function Segments(raw: string): seq<string>
  {
    Split(Unbraced(raw), ',')
  }

  /** `f` applied to each string of `xs`, in order. */
  function MapStrings(f: string -> string, xs: seq<string>): (ys: seq<string>)
    ensures |ys| == |xs| && forall k :: 0 <= k < |xs| ==> ys[k] == f(xs[k])
  {
    seq(|xs|, k requires 0 <= k < |xs| => f(xs[k]))
  }

  lemma MapStringsAppend(f: string -> string, a: seq<string>, b: seq<string>)
    ensures MapStrings(f, a + b) == MapStrings(f, a) + MapStrings(f, b)
  {
    assert forall k :: 0 <= k < |a| ==> (a + b)[k] == a[k];
    assert forall k :: |a| <= k < |a| + |b| ==> (a + b)[k] == b[k - |a|];
  }

  /** Each segment cleaned, in order. */
  function CleanAll(segments: seq<string>): seq<string>
  {
    MapStrings(CleanItem, segments)
  }

  /** The strings of `xs` that are not empty, in their original order. */
  function NonEmpty(xs: seq<string>): (items: seq<string>)
    ensures |items| <= |xs|
    ensures forall k :: 0 <= k < |items| ==> items[k] != []
  {
    if xs == [] then []
    else NonEmpty(xs[..|xs| - 1]) + (if xs[|xs| - 1] != [] then [xs[|xs| - 1]] else [])
  }

  /** What the fallback parser returns for the stored text `raw`. */
  function Fallback(raw: string): seq<string>
  {
    NonEmpty(CleanAll(Segments(raw)))
  }

  /** Python truthiness of the nullable `extras` column: neither NULL nor the empty string. */
  predicate Present(extras: Option<string>)
  {
    extras.Some? && extras.value != []
  }

  /** The value `get_extras` produces. `loads` stands for `json.loads`: `None` when the
      text is not valid JSON, otherwise the decoded value. */
  function ExtrasValue(extras: Option<string>, loads: string -> Option<Json>): seq<Json>
  {
    if !Present(extras) then []
    else match loads(extras.value)
      case Some(JList(elems)) => elems
      case Some(_) => []
      case None => JsonStrings(Fallback(extras.value))
  }

  /** The strings `xs` as a JSON list of strings. */
  function JsonStrings(xs: seq<string>): (r: seq<Json>)
    ensures |r| == |xs| && forall k :: 0 <= k < |xs| ==> r[k] == JString(xs[k])
  {
    seq(|xs|, k requires 0 <= k < |xs| => JString(xs[k]))
  }

  /** The fallback branch of `get_extras`: trim, drop the braces, then walk the segments
      of `split(',')`, cleaning each and appending the non-empty ones. */
  method ParseFallback(raw: string) returns (items: seq<string>)
    ensures items == Fallback(raw)
    ensures forall k :: 0 <= k < |items| ==> items[k] != []
    ensures |items| <= Count(raw, ',') + 1
  {
    var extrasStr := Strip(raw);
    if StartsWith(extrasStr, '{') && EndsWith(extrasStr, '}') {
      extrasStr := Inner(extrasStr);
    }
    assert extrasStr == Unbraced(raw);
    var segments := Split(extrasStr, ',');
    items := [];
    for i := 0 to |segments|
      invariant items == NonEmpty(CleanAll(segments[..i]))
    {
      var item := Strip(segments[i]);
      if StartsWith(item, '"') && EndsWith(item, '"') {
        item := Inner(item);
      } else if StartsWith(item, '\'') && EndsWith(item, '\'') {
        item := Inner(item);
      }
      KeepStep(segments, i, items, item);
      if item != [] {
        items := items + [item];
      }
    }
    assert segments[..|segments|] == segments;
    FallbackBound(raw);
  }

  /** One turn of the fallback loop extends the kept items by the cleaned segment `i`. */
  lemma KeepStep(segments: seq<string>, i: nat, items: seq<string>, item: string)
    requires i < |segments|
    requires items == NonEmpty(CleanAll(segments[..i]))
    requires item == CleanItem(segments[i])
    ensures NonEmpty(CleanAll(segments[..i + 1])) == items + (if item != [] then [item] else [])
  {
    MappedSnoc(CleanItem, segments, i);
  }

  /** Mapping and filtering one more string extends the result by that string's image,
      when it is not empty. */
  lemma MappedSnoc(f: string -> string, xs: seq<string>, i: nat)
    requires i < |xs|
    ensures NonEmpty(MapStrings(f, xs[..i + 1])) ==
            NonEmpty(MapStrings(f, xs[..i])) + (if f(xs[i]) != [] then [f(xs[i])] else [])
  {
    assert xs[..i + 1] == xs[..i] + [xs[i]];
    MapStringsAppend(f, xs[..i], [xs[i]]);
    NonEmptySnoc(MapStrings(f, xs[..i]), f(xs[i]));
  }

  lemma NonEmptySnoc(xs: seq<string>, x: string)
    ensures NonEmpty(xs + [x]) == NonEmpty(xs) + (if x != [] then [x] else [])
  {
    assert (xs + [x])[..|xs|] == xs;
  }

  /** `get_extras`: an empty or missing value gives `[]`; a JSON list is returned as it
      is; any other JSON value gives `[]`; text that is not JSON goes to the fallback,
      whose items come back as JSON strings. */
  method GetExtras(extras: Option<string>, loads: string -> Option<Json>) returns (r: seq<Json>)
    ensures r == ExtrasValue(extras, loads)
    ensures !Present(extras) ==> r == []
    ensures Present(extras) && loads(extras.value).Some? && !loads(extras.value).value.JList? ==> r == []
    ensures Present(extras) && loads(extras.value).None? ==>
      |r| == |Fallback(extras.value)| &&
      forall k :: 0 <= k < |r| ==> r[k].JString? && r[k].str != []
  {
    if extras.Some? && extras.value != [] {
      var parsed := loads(extras.value);
      if parsed.Some? {
        r := if parsed.value.JList? then parsed.value.elems else [];
      } else {
        var items := ParseFallback(extras.value);
        r := JsonStrings(items);
      }
    } else {
      r := [];
    }
  }

  /** Cleaning works segment by segment: it distributes over concatenation. */
  lemma CleanAllAppend(a: seq<string>, b: seq<string>)
    ensures CleanAll(a + b) == CleanAll(a) + CleanAll(b)
  {
    MapStringsAppend(CleanItem, a, b);
  }

  /** The fallback returns at most one item more than there are commas in the stored
      text. */
  lemma FallbackBound(raw: string)
    ensures |Fallback(raw)| <= Count(raw, ',') + 1
  {
    UnbracedCount(raw);
  }

  /** The braces go only in pairs: when the trimmed text starts with `{` and ends with
      `}`, it is the result with those two around it; otherwise the result is the
      trimmed text itself. */
  lemma UnbracedShape(raw: string)
    ensures var t := Strip(raw);
      && (StartsWith(t, '{') && EndsWith(t, '}') ==> t == ['{'] + Unbraced(raw) + ['}'])
      && (!(StartsWith(t, '{') && EndsWith(t, '}')) ==> Unbraced(raw) == t)
  {
    var t := Strip(raw);
    if StartsWith(t, '{') && EndsWith(t, '}') {
      assert |t| >= 2;
      assert t == [t[0]] + t[1..|t| - 1] + [t[|t| - 1]];
    }
  }

  /** Trimming and removing the braces removes no comma. */
  lemma UnbracedCount(raw: string)
    ensures Count(Unbraced(raw), ',') <= Count(raw, ',')
  {
    var i, j := StripIsSlice(raw);
    var t := Strip(raw);
    if StartsWith(t, '{') && EndsWith(t, '}') {
      assert t[0] == '{' && t[|t| - 1] == '}';
      assert Unbraced(raw) == t[1..|t| - 1];
      SliceOfSlice(raw, i, j, 1, |t| - 1);
      CountInfix(raw, i + 1, j - 1, ',');
    } else {
      CountInfix(raw, i, j, ',');
    }
  }

  /** Dropping the empty strings keeps the left-to-right order: it distributes over
      concatenation. */
  lemma {:induction false} NonEmptyAppend(a: seq<string>, b: seq<string>)
    ensures NonEmpty(a + b) == NonEmpty(a) + NonEmpty(b)
  {
    if b == [] {
      assert a + b == a;
    } else {
      var ab := a + b;
      assert ab[..|ab| - 1] == a + b[..|b| - 1];
      assert ab[|ab| - 1] == b[|b| - 1];
      NonEmptyAppend(a, b[..|b| - 1]);
    }
  }

  /** A string survives the filter exactly when it is non-empty and occurs in the input. */
  lemma {:induction false} NonEmptyMembers(xs: seq<string>, s: string)
    ensures s in NonEmpty(xs) <==> s != [] && s in xs
  {
    if xs != [] {
      var init := xs[..|xs| - 1];
      NonEmptyMembers(init, s);
      assert xs == init + [xs[|xs| - 1]];
    }
  }

  /** The items of the comma-separated text `x,y` are the items of `x` followed by the
      items of `y`: the fallback preserves the order of the segments. */
  lemma ItemsConcat(x: string, y: string)
    ensures NonEmpty(CleanAll(Split(x + [','] + y, ','))) ==
            NonEmpty(CleanAll(Split(x, ','))) + NonEmpty(CleanAll(Split(y, ',')))
  {
    SplitConcat(x, y, ',');
    CleanAllAppend(Split(x, ','), Split(y, ','));
    NonEmptyAppend(CleanAll(Split(x, ',')), CleanAll(Split(y, ',')));
  }

  /** A string is an item of the fallback exactly when it is non-empty and is the cleaned
      form of one of the comma-separated segments. */
  lemma FallbackMembers(raw: string, s: string)
    ensures s in Fallback(raw) <==>
            s != [] && exists j :: 0 <= j < |Segments(raw)| && CleanItem(Segments(raw)[j]) == s
  {
    KeptMembers(Segments(raw), s);
  }

  lemma KeptMembers(segments: seq<string>, s: string)
    ensures s in NonEmpty(CleanAll(segments)) <==>
            s != [] && exists j :: 0 <= j < |segments| && CleanItem(segments[j]) == s
  {
    var cleaned := CleanAll(segments);
    NonEmptyMembers(cleaned, s);
    if s in cleaned {
      var j :| 0 <= j < |cleaned| && cleaned[j] == s;
      assert CleanItem(segments[j]) == s;
    }
    if exists j :: 0 <= j < |segments| && CleanItem(segments[j]) == s {
      var j :| 0 <= j < |segments| && CleanItem(segments[j]) == s;
      assert cleaned[j] == s;
    }
  }

  /** A cleaned item is an infix of its segment: cleaning only removes characters from
      the two ends. */
  lemma CleanItemInfix(segment: string) returns (i: nat, j: nat)
    ensures i <= j <= |segment| && CleanItem(segment) == segment[i..j]
  {
    var a, b := StripIsSlice(segment);
    var t := Strip(segment);
    if CleanItem(segment) == t {
      i, j := a, b;
    } else if |t| >= 2 {
      assert CleanItem(segment) == t[1..|t| - 1];
      i, j := a + 1, b - 1;
      SliceOfSlice(segment, a, b, 1, |t| - 1);
    } else {
      assert CleanItem(segment) == [];
      i, j := a, a;
    }
  }

  /** A segment whose trimmed text is quoted, `"w"` or `'w'`, cleans to exactly `w`: the
      white space inside the quotes is kept (no second trim) and quotes inside `w` stay
      (only one pair is removed). */
  lemma CleanItemQuoted(segment: string, q: char, w: string)
    requires q == '"' || q == '\''
    requires Strip(segment) == [q] + w + [q]
    ensures CleanItem(segment) == w
  {
    var t := Strip(segment);
    assert t[1..|t| - 1] == w;
  }

  /** A segment that trims to a lone quote character cleans to the empty string (the quote
      is both the opening and the closing one), so the fallback drops it. */
  lemma CleanItemLoneQuote(segment: string, q: char)
    requires q == '"' || q == '\''
    requires Strip(segment) == [q]
    ensures CleanItem(segment) == []
  {
  }

  /** A segment that does not trim to a quoted string is only trimmed. */
  lemma CleanItemUnquoted(segment: string)
    requires !(StartsWith(Strip(segment), '"') && EndsWith(Strip(segment), '"'))
    requires !(StartsWith(Strip(segment), '\'') && EndsWith(Strip(segment), '\''))
    ensures CleanItem(segment) == Strip(segment)
  {
  }
}
