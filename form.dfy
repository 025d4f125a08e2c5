/**
 * The INI-file form provider: the conversion of a form element's current
 * string value into a typed value, chosen by the element's provider type,
 * and the provider's `load` operation.
 */
module IniProvider {
  import opened Wrappers
  import opened Ascii

  /** The seven provider types the conversion recognises. */
  datatype TypeTag = Integer | Float | String | Boolean | Date | Time | DateTime {
    /** The types whose value is read as a date/time and rendered back as a string. */
    predicate IsTemporal() {
      this == Date || this == Time || this == DateTime
    }
  }

  /** The literal each type is compared against, in lower case. */
  function Name(k: TypeTag): (r: CString)
    ensures forall i :: 0 <= i < |r| ==> !IsUpper(r[i])
  {
    match k
    case Integer => "integer"
    case Float => "float"
    case String => "string"
    case Boolean => "boolean"
    case Date => "date"
    case Time => "time"
    case DateTime => "datetime"
  }

  /**
   * `g_ascii_strcasecmp (type, literal)`, where the provider type may be
   * `NULL` (`None`): GLib's guard `g_return_val_if_fail (s1 != NULL, 0)`
   * then answers 0, as if the strings were equal.
   */
  function StrCaseCmp(tag: Option<CString>, literal: CString): (r: int)
    ensures r == 0 <==> tag.None? || FoldCase(tag.value) == FoldCase(literal)
  {
    match tag
    case None => 0
    case Some(t) => CaseCmp(t, literal)
  }

  /**
   * One test of the chain: `g_ascii_strcasecmp (type, literal) == 0`. It
   * succeeds for a `NULL` type whatever the literal.
   */
  predicate Matches(tag: Option<CString>, k: TypeTag)
    ensures Matches(tag, k) <==> tag.None? || FoldCase(tag.value) == Name(k)
  {
    FoldCaseOfLower(Name(k));
    StrCaseCmp(tag, Name(k)) == 0
  }

  /**
   * The dispatch on the provider type: the seven literals are tried in the
   * order of the source's if/else-if chain, each with `g_ascii_strcasecmp`;
   * `None` when no literal matches. A `NULL` type passes the first test and
   * so selects `Integer`.
   */
  function ParseTag(tag: Option<CString>): (r: Option<TypeTag>)
    ensures tag.None? ==> r == Some(Integer)
    ensures tag.Some? && r.Some? ==> FoldCase(tag.value) == Name(r.value)
    ensures r.None? <==> forall k :: !Matches(tag, k)
  {
    if Matches(tag, Integer) then Some(Integer)
    else if Matches(tag, Float) then Some(Float)
    else if Matches(tag, String) then Some(String)
    else if Matches(tag, Boolean) then Some(Boolean)
    else if Matches(tag, Date) then Some(Date)
    else if Matches(tag, Time) then Some(Time)
    else if Matches(tag, DateTime) then Some(DateTime)
    else None
  }

  /** C's `gint`: a 32-bit signed integer. */
  newtype Gint = x: int | -0x8000_0000 <= x < 0x8000_0000

  /**
   * The typed value the conversion produces (a `GValue`). The float payload
   * is the library's number type, kept abstract.
   */
  datatype Value<Num> =
    | IntValue(i: Gint)
    | FloatValue(f: Num)
    | StringValue(s: string)
    | BoolValue(b: bool)

  /**
   * The library routines the conversion calls and whose internals are not
   * part of this model:
   *   unformatMoney  -- `zak_utils_unformat_money_full(value, thousands_separator, currency_symbol)`
   *   truncate       -- the C cast `(gint)` of the unformatted number, a 32-bit result
   *   parseDateTime  -- `zak_utils_get_gdatetime_from_string(value, pattern)`, `None` for `NULL`
   *   formatDateTime -- `zak_utils_gdatetime_format(moment, pattern)`
   */
  datatype Library<!Num, !Moment> = Library(
    unformatMoney: (CString, Option<CString>, Option<CString>) -> Num,
    truncate: Num -> Gint,
    parseDateTime: (CString, Option<CString>) -> Option<Moment>,
    formatDateTime: (Moment, CString) -> CString)

  /** The parts of a form element the conversion reads through its accessors. */
  datatype Element = Element(
    value: CString,
    providerType: Option<CString>,
    format: map<CString, CString>)

  /** `g_hash_table_lookup` on the format table: `None` for a missing key. */
  function Lookup(format: map<CString, CString>, key: CString): (r: Option<CString>)
    ensures r.Some? <==> key in format
    ensures r.Some? ==> r.value == format[key]
  {
    if key in format then Some(format[key]) else None
  }

  /** The `strftime`-style pattern a temporal type is rendered with. */
  function OutputPattern(k: TypeTag): (r: CString)
    requires k.IsTemporal()
    ensures k != DateTime ==> |r| == 2 && r[0] == '%'
    ensures k == DateTime ==> |r| == 5 && r[0] == '%' && r[2] == ' ' && r[3] == '%'
  {
    match k
    case Date => "%F"
    case Time => "%T"
    case DateTime => "%F %T"
  }

  /**
   * The conversion for a recognised type: money unformatting for the two
   * numeric types, identity for strings, an exact comparison with `TRUE`
   * for booleans, and parse-then-render for the temporal types, an
   * unparsable value giving the empty string.
   */
  function Convert<Num, Moment>(k: TypeTag, value: CString, format: map<CString, CString>,
                                lib: Library<Num, Moment>): (r: Value<Num>)
    ensures r.IntValue? <==> k == Integer
    ensures r.FloatValue? <==> k == Float
    ensures r.BoolValue? <==> k == Boolean
    ensures r.StringValue? <==> k == String || k.IsTemporal()
  {
    match k
    case Integer =>
      IntValue(lib.truncate(lib.unformatMoney(value, Lookup(format, "thousands_separator"), None)))
    case Float =>
      FloatValue(lib.unformatMoney(value, Lookup(format, "thousands_separator"),
                                   Lookup(format, "currency_symbol")))
    case String => StringValue(value)
    case Boolean => BoolValue(value == "TRUE")
    case _ =>
      match lib.parseDateTime(value, Lookup(format, "content"))
      case None => StringValue("")
      case Some(moment) => StringValue(lib.formatDateTime(moment, OutputPattern(k)))
  }

  /**
   * `zak_form_ini_provider_new_gvalue_from_element`: the typed value for an
   * element, or `None` when its provider type is none of the seven (the
   * source then leaves its result unassigned). A `NULL` provider type is
   * converted as `integer`.
   */
  function ValueFromElement<Num, Moment>(e: Element, lib: Library<Num, Moment>): (r: Option<Value<Num>>)
    ensures r.None? <==> ParseTag(e.providerType).None?
  {
    match ParseTag(e.providerType)
    case None => None
    case Some(k) => Some(Convert(k, e.value, e.format, lib))
  }

  /**
   * `zak_form_ini_provider_load`: answers success without looking at the
   * elements. The function has no `reads` clause, so it can neither read
   * nor change the array or anything else in the heap.
   */
  function Load(elements: array<Element>): (ok: bool)
    ensures ok
  {
    true
  }
}
