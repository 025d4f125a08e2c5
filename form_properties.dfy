/**
 * What the conversion promises, branch by branch: the case-insensitive
 * dispatch, the identity and exact-`TRUE` branches, the temporal branches'
 * fallback and output patterns, which format options each numeric branch
 * consults, and the unset result for an unknown type.
 */
module IniProviderProperties {
  import opened Wrappers
  import opened Ascii
  import opened IniProvider

  /** The provider type after ASCII case folding; `None` for a `NULL` type. */
  function Folded(tag: Option<CString>): (r: Option<string>)
    ensures r.None? <==> tag.None?
  {
    match tag
    case None => None
    case Some(t) => Some(FoldCase(t))
  }

  /** The seven literals stay distinct after folding, so at most one test of the chain can succeed on a non-`NULL` type. */
  lemma NamesDistinct(k1: TypeTag, k2: TypeTag)
    ensures FoldCase(Name(k1)) == FoldCase(Name(k2)) ==> k1 == k2
  {
    FoldCaseOfLower(Name(k1));
    FoldCaseOfLower(Name(k2));
  }

  /** A type is selected exactly when the tag folds to its literal. */
  lemma ParseTagIff(tag: CString, k: TypeTag)
    ensures ParseTag(Some(tag)) == Some(k) <==> FoldCase(tag) == Name(k)
  {
    var r := ParseTag(Some(tag));
    if FoldCase(tag) == Name(k) {
      assert Matches(Some(tag), k);
      assert r.Some?;
      NamesDistinct(r.value, k);
      FoldCaseOfLower(Name(k));
      FoldCaseOfLower(Name(r.value));
    }
  }

  /** The optional-tag form of `ParseTagIff`, as the element lemmas use it. */
  lemma FoldedSelects(tag: Option<CString>, k: TypeTag)
    requires Folded(tag) == Some(Name(k))
    ensures ParseTag(tag) == Some(k)
  {
    ParseTagIff(tag.value, k);
  }

  /** Once the dispatch has selected a type, the result is that type's branch. */
  lemma SelectedConverts<Num, Moment>(e: Element, k: TypeTag, lib: Library<Num, Moment>)
    requires ParseTag(e.providerType) == Some(k)
    ensures ValueFromElement(e, lib) == Some(Convert(k, e.value, e.format, lib))
  {
  }

  /** No type is selected exactly when the tag is not `NULL` and folds to none of the seven literals. */
  lemma ParseTagNoneIff(tag: Option<CString>)
    ensures ParseTag(tag) == None <==> tag.Some? && forall k :: FoldCase(tag.value) != Name(k)
  {
    forall k ensures Matches(tag, k) <==> tag.None? || FoldCase(tag.value) == Name(k) { }
  }

  /** A `NULL` type passes GLib's guard in the first test and selects `integer`. */
  lemma NullTagIsInteger()
    ensures ParseTag(None) == Some(Integer)
  {
  }

  /** Tags that differ only in ASCII letter case select the same branch. */
  lemma ParseTagIgnoresCase(a: Option<CString>, b: Option<CString>)
    requires Folded(a) == Folded(b)
    ensures ParseTag(a) == ParseTag(b)
  {
    if a.Some? {
      match ParseTag(a)
      case Some(k) => ParseTagIff(a.value, k); ParseTagIff(b.value, k);
      case None => ParseTagNoneIff(a); ParseTagNoneIff(b);
    }
  }

  /** Each literal selects its own type. */
  lemma ParseTagName(k: TypeTag)
    ensures ParseTag(Some(Name(k))) == Some(k)
  {
    FoldCaseOfLower(Name(k));
    ParseTagIff(Name(k), k);
  }

  /** The upper-case and capitalised spellings of `string` fold to it. */
  lemma StringSpellingsFold()
    ensures FoldCase("STRING") == "string"
    ensures FoldCase("String") == "string"
  {
  }

  /** `STRING`, `String` and `string` all select the string branch. */
  lemma StringSpellings(t: CString)
    requires t == "STRING" || t == "String" || t == "string"
    ensures ParseTag(Some(t)) == Some(String)
  {
    StringSpellingsFold();
    FoldCaseOfLower("string");
    ParseTagIff(t, String);
  }

  /** The whole conversion does not depend on the letter case of the provider type. */
  lemma ConversionIgnoresTagCase<Num, Moment>(e1: Element, e2: Element, lib: Library<Num, Moment>)
    requires e1.value == e2.value && e1.format == e2.format
    requires Folded(e1.providerType) == Folded(e2.providerType)
    ensures ValueFromElement(e1, lib) == ValueFromElement(e2, lib)
  {
    ParseTagIgnoresCase(e1.providerType, e2.providerType);
  }

  /**
   * `integer` (and a `NULL` type): the unformatted number, read with the
   * thousands separator only and no currency symbol, then cast to a 32-bit
   * `gint`.
   */
  lemma IntegerIsTruncatedUnformatted<Num, Moment>(e: Element, lib: Library<Num, Moment>)
    requires Folded(e.providerType) == None || Folded(e.providerType) == Some(Name(Integer))
    ensures ValueFromElement(e, lib)
         == Some(IntValue(lib.truncate(lib.unformatMoney(e.value, Lookup(e.format, "thousands_separator"), None))))
    ensures -0x8000_0000 <= ValueFromElement(e, lib).value.i as int <= 0x7fff_ffff
  {
    if e.providerType.Some? {
      FoldedSelects(e.providerType, Integer);
    }
    SelectedConverts(e, Integer, lib);
  }

  /** `integer` consults no format option but `thousands_separator`. */
  lemma IntegerConsultsOnlySeparator<Num, Moment>(e1: Element, e2: Element, lib: Library<Num, Moment>)
    requires Folded(e1.providerType) == Some(Name(Integer)) && Folded(e2.providerType) == Some(Name(Integer))
    requires e1.value == e2.value
    requires Lookup(e1.format, "thousands_separator") == Lookup(e2.format, "thousands_separator")
    ensures ValueFromElement(e1, lib) == ValueFromElement(e2, lib)
  {
    IntegerIsTruncatedUnformatted(e1, lib);
    IntegerIsTruncatedUnformatted(e2, lib);
  }

  /** `float`: the number unformatted with both the thousands separator and the currency symbol. */
  lemma FloatIsUnformatted<Num, Moment>(e: Element, lib: Library<Num, Moment>)
    requires Folded(e.providerType) == Some(Name(Float))
    ensures ValueFromElement(e, lib)
         == Some(FloatValue(lib.unformatMoney(e.value, Lookup(e.format, "thousands_separator"),
                                              Lookup(e.format, "currency_symbol"))))
  {
    FoldedSelects(e.providerType, Float);
    SelectedConverts(e, Float, lib);
  }

  /** `float` consults no format option but `thousands_separator` and `currency_symbol`. */
  lemma FloatConsultsSeparatorAndCurrency<Num, Moment>(e1: Element, e2: Element, lib: Library<Num, Moment>)
    requires Folded(e1.providerType) == Some(Name(Float)) && Folded(e2.providerType) == Some(Name(Float))
    requires e1.value == e2.value
    requires Lookup(e1.format, "thousands_separator") == Lookup(e2.format, "thousands_separator")
    requires Lookup(e1.format, "currency_symbol") == Lookup(e2.format, "currency_symbol")
    ensures ValueFromElement(e1, lib) == ValueFromElement(e2, lib)
  {
    FloatIsUnformatted(e1, lib);
    FloatIsUnformatted(e2, lib);
  }

  /** `string`: the element's value, unchanged. */
  lemma StringIsIdentity<Num, Moment>(e: Element, lib: Library<Num, Moment>)
    requires Folded(e.providerType) == Some(Name(String))
    ensures ValueFromElement(e, lib) == Some(StringValue(e.value))
  {
    FoldedSelects(e.providerType, String);
    SelectedConverts(e, String, lib);
  }

  /** `boolean`: true exactly when the value is `TRUE`, compared character for character. */
  lemma BooleanIsExactTrue<Num, Moment>(e: Element, lib: Library<Num, Moment>)
    requires Folded(e.providerType) == Some(Name(Boolean))
    ensures ValueFromElement(e, lib) == Some(BoolValue(e.value == "TRUE"))
  {
    FoldedSelects(e.providerType, Boolean);
    SelectedConverts(e, Boolean, lib);
  }

  /** The value comparison is case-sensitive although the type comparison is not: `true` gives false. */
  lemma LowerCaseTrueIsFalse<Num, Moment>(e: Element, lib: Library<Num, Moment>)
    requires Folded(e.providerType) == Some(Name(Boolean))
    requires e.value == "true"
    ensures ValueFromElement(e, lib) == Some(BoolValue(false))
  {
    BooleanIsExactTrue(e, lib);
    assert e.value[0] != "TRUE"[0];
  }

  /** `date`, `time`, `datetime`: a value the `content` pattern cannot parse becomes the empty string. */
  lemma TemporalParseFailureIsEmpty<Num, Moment>(e: Element, k: TypeTag, lib: Library<Num, Moment>)
    requires k.IsTemporal() && Folded(e.providerType) == Some(Name(k))
    requires lib.parseDateTime(e.value, Lookup(e.format, "content")) == None
    ensures ValueFromElement(e, lib) == Some(StringValue(""))
  {
    ParseTagIff(e.providerType.value, k);
  }

  /**
   * `date`, `time`, `datetime`: a parsed value is rendered with `%F`, `%T`
   * and `%F %T` respectively; nothing else distinguishes the three branches.
   */
  lemma TemporalParsedIsRendered<Num, Moment>(e: Element, k: TypeTag, lib: Library<Num, Moment>, m: Moment)
    requires k.IsTemporal() && Folded(e.providerType) == Some(Name(k))
    requires lib.parseDateTime(e.value, Lookup(e.format, "content")) == Some(m)
    ensures ValueFromElement(e, lib)
         == Some(StringValue(lib.formatDateTime(m, if k == Date then "%F" else if k == Time then "%T" else "%F %T")))
  {
    ParseTagIff(e.providerType.value, k);
  }

  /** The `datetime` pattern is the `date` pattern, a space, then the `time` pattern. */
  lemma DateTimePatternJoinsDateAndTime()
    ensures OutputPattern(DateTime) == OutputPattern(Date) + " " + OutputPattern(Time)
  {
  }

  /** The temporal branches consult no format option but `content`. */
  lemma TemporalConsultsOnlyContent<Num, Moment>(e1: Element, e2: Element, k: TypeTag, lib: Library<Num, Moment>)
    requires k.IsTemporal()
    requires Folded(e1.providerType) == Some(Name(k)) && Folded(e2.providerType) == Some(Name(k))
    requires e1.value == e2.value
    requires Lookup(e1.format, "content") == Lookup(e2.format, "content")
    ensures ValueFromElement(e1, lib) == ValueFromElement(e2, lib)
  {
    ParseTagIff(e1.providerType.value, k);
    ParseTagIff(e2.providerType.value, k);
  }

  /**
   * The result is unset exactly when the provider type is a string that
   * matches none of the seven literals; a `NULL` type is never unset.
   */
  lemma UnknownTypeIsUnset<Num, Moment>(e: Element, lib: Library<Num, Moment>)
    ensures ValueFromElement(e, lib) == None
        <==> e.providerType.Some? && forall k :: FoldCase(e.providerType.value) != Name(k)
  {
    ParseTagNoneIff(e.providerType);
  }
}
