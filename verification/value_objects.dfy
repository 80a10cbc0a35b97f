/** The rule `CategoryName` and `ProductName` share: a name is checked on
    its trimmed form, which must not be empty in PHP's `empty()` sense and
    must be at most 255 bytes long; the trimmed form is what gets stored. */
module NameRules {
  import opened Wrappers
  import opened PhpStrings
  import opened Errors

  const MaxNameLength: nat := 255

  /** What a stored, validated name looks like. */
  ghost predicate IsValidName(s: string) {
    s == Trim(s) && !IsPhpEmpty(s) && StrLen(s) <= MaxNameLength
  }

  /** The emptiness check runs before the length check, so a blank input
      always reports `onEmpty`. */
  function CheckBoundedName(v: string, onEmpty: Error, onTooLong: Error): (r: Result<string, Error>)
    ensures r.Success? <==> !IsPhpEmpty(Trim(v)) && StrLen(Trim(v)) <= MaxNameLength
    ensures r.Success? ==> r.value == Trim(v) && IsValidName(r.value)
    ensures IsPhpEmpty(Trim(v)) ==> r == Failure(onEmpty)
    ensures !IsPhpEmpty(Trim(v)) && StrLen(Trim(v)) > MaxNameLength ==> r == Failure(onTooLong)
  {
    var t := Trim(v);
    if IsPhpEmpty(t) then Failure(onEmpty)
    else if StrLen(t) > MaxNameLength then Failure(onTooLong)
    else
      TrimIdempotent(v);
      Success(t)
  }

  /** On ASCII text with clean ends the limit is exactly 255 characters. */
  lemma {:induction false} LengthBoundary(s: string, onEmpty: Error, onTooLong: Error)
    requires forall i | 0 <= i < |s| :: (s[i] as int) < 0x80
    requires HasTrimmedEnds(s) && s != "0"
    requires |s| == 255 || |s| == 256
    ensures |s| == 255 ==> CheckBoundedName(s, onEmpty, onTooLong) == Success(s)
    ensures |s| == 256 ==> CheckBoundedName(s, onEmpty, onTooLong) == Failure(onTooLong)
  {
    assert s[0..0 + |s|] == s && s[..0] == [] && s[0 + |s|..] == [];
    TrimUnique(s, s, 0);
    AsciiStrLen(s);
  }
}

/** `CategoryName`: a self-validating, immutable category name. */
module CategoryNames {
  import opened Wrappers
  import opened PhpStrings
  import opened Errors
  import opened NameRules

  datatype CategoryName = CategoryName(value: string)

  /** The constructor: accepts exactly the inputs whose trim is a non-empty
      name of at most 255 bytes, and keeps the trimmed form. */
  function Create(v: string): (r: Result<CategoryName, Error>)
    ensures r.Success? <==> !IsPhpEmpty(Trim(v)) && StrLen(Trim(v)) <= MaxNameLength
    ensures r.Success? ==> r.value.value == Trim(v) && IsValidName(r.value.value)
    ensures IsPhpEmpty(Trim(v)) ==> r == Failure(CategoryNameEmpty)
    ensures !IsPhpEmpty(Trim(v)) && StrLen(Trim(v)) > MaxNameLength ==> r == Failure(CategoryNameTooLong)
  {
    var t :- CheckBoundedName(v, CategoryNameEmpty, CategoryNameTooLong);
    Success(CategoryName(t))
  }

  /** `__toString` returns the stored value, as `getValue` (the field) does. */
  function ToString(n: CategoryName): string {
    n.value
  }

  /** `equals`: strict comparison of the stored strings. */
  function Equals(a: CategoryName, b: CategoryName): (r: bool)
    ensures r <==> a == b
  {
    a.value == b.value
  }

  /** Rebuilding a name from its stored value gives the same name back. */
  lemma RebuildIsIdentity(v: string)
    requires Create(v).Success?
    ensures Create(ToString(Create(v).value)) == Create(v)
  {
    TrimIdempotent(v);
  }

  /** Names that differ only by surrounding whitespace are equal. */
  lemma PaddingIsIgnored(p: string, v: string, q: string)
    requires AllTrimChars(p) && AllTrimChars(q)
    ensures Create(p + v + q) == Create(v)
  {
    TrimIgnoresPadding(p, v, q);
  }

  /** A name that is already clean is stored exactly as given. */
  lemma CleanNameIsKept(v: string)
    requires HasTrimmedEnds(v) && !IsPhpEmpty(v) && StrLen(v) <= MaxNameLength
    ensures Create(v) == Success(CategoryName(v))
  {
    assert v[0..0 + |v|] == v && v[..0] == [] && v[0 + |v|..] == [];
    TrimUnique(v, v, 0);
  }
}

/** `ProductName`: the same rule as `CategoryName`, as an independent type
    with the product error messages. */
module ProductNames {
  import opened Wrappers
  import opened PhpStrings
  import opened Errors
  import opened NameRules

  datatype ProductName = ProductName(value: string)

  function Create(v: string): (r: Result<ProductName, Error>)
    ensures r.Success? <==> !IsPhpEmpty(Trim(v)) && StrLen(Trim(v)) <= MaxNameLength
    ensures r.Success? ==> r.value.value == Trim(v) && IsValidName(r.value.value)
    ensures IsPhpEmpty(Trim(v)) ==> r == Failure(ProductNameEmpty)
    ensures !IsPhpEmpty(Trim(v)) && StrLen(Trim(v)) > MaxNameLength ==> r == Failure(ProductNameTooLong)
  {
    var t :- CheckBoundedName(v, ProductNameEmpty, ProductNameTooLong);
    Success(ProductName(t))
  }

  function ToString(n: ProductName): string {
    n.value
  }

  function Equals(a: ProductName, b: ProductName): (r: bool)
    ensures r <==> a == b
  {
    a.value == b.value
  }

  lemma RebuildIsIdentity(v: string)
    requires Create(v).Success?
    ensures Create(ToString(Create(v).value)) == Create(v)
  {
    TrimIdempotent(v);
  }
}

/** `CategoryId`: a trimmed identifier that only has to be non-blank. */
module CategoryIds {
  import opened Wrappers
  import opened PhpStrings
  import opened Errors

  datatype CategoryId = CategoryId(value: string)

  /** No length or format restriction beyond non-blankness. */
  function Create(v: string): (r: Result<CategoryId, Error>)
    ensures r.Success? <==> !IsPhpEmpty(Trim(v))
    ensures r.Success? ==> r.value.value == Trim(v) && r.value.value == Trim(r.value.value)
    ensures r.Failure? ==> r.error == CategoryIdEmpty
  {
    var t := Trim(v);
    if IsPhpEmpty(t) then Failure(CategoryIdEmpty)
    else
      TrimIdempotent(v);
      Success(CategoryId(t))
  }

  function ToString(n: CategoryId): string {
    n.value
  }

  function Equals(a: CategoryId, b: CategoryId): (r: bool)
    ensures r <==> a == b
  {
    a.value == b.value
  }

  /** Any clean, non-blank id is accepted as given, whatever its length. */
  lemma CleanIdIsKept(v: string)
    requires HasTrimmedEnds(v) && !IsPhpEmpty(v)
    ensures Create(v) == Success(CategoryId(v))
  {
    assert v[0..0 + |v|] == v && v[..0] == [] && v[0 + |v|..] == [];
    TrimUnique(v, v, 0);
  }
}

/** `Price`: a non-negative amount. Amounts are exact reals. */
module Prices {
  import opened Wrappers
  import opened Errors

  datatype Price = Price(value: real)

  /** Accepts exactly the non-negative values, zero included, and keeps the
      value unchanged. */
  function Create(v: real): (r: Result<Price, Error>)
    ensures r.Success? <==> v >= 0.0
    ensures r.Success? ==> r.value.value == v
    ensures r.Failure? ==> r.error == PriceNegative
  {
    if v < 0.0 then Failure(PriceNegative) else Success(Price(v))
  }

  /** `__toFloat` returns the stored value, as `getValue` (the field) does. */
  function ToFloat(p: Price): real {
    p.value
  }

  function Equals(a: Price, b: Price): (r: bool)
    ensures r <==> a == b
  {
    a.value == b.value
  }

  /** Reading a constructed price back yields the input. */
  lemma RoundTrip(v: real)
    requires v >= 0.0
    ensures Create(v).Success? && ToFloat(Create(v).value) == v
    ensures Create(ToFloat(Create(v).value)) == Create(v)
  {
  }
}
