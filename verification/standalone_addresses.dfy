/** `EmailAddress` as src/email_adress.py defines it, the class the message
    service uses. Its code repeats the class of src/email_models.py line for
    line, except that the normaliser is called `_normalized` while `__eq__`
    still calls `self._normalize`. Each member here is written from this
    file's code, and its contract states that it agrees with `Addresses`;
    only comparison with a string differs. */
module StandaloneAddresses {
  import opened Results
  import opened Text
  import Addresses

  type Address = Addresses.Address
  type AddressError = Addresses.AddressError
  type Operand = Addresses.Operand

  /** The static method `_normalized`: lower-case, then strip. */
  function Normalized(raw: string): (r: string)
    ensures r == Addresses.Normalize(raw)
  {
    if raw == "" then "" else Strip(Lower(raw))
  }

  /** `_validate`: the first failing check, in the same order as the other class. */
  function Validate(n: string): (r: Option<AddressError>)
    ensures r.None? <==> Addresses.WellFormed(n)
    ensures r.Some? ==> (r.value.EmptyAddress? <==> n == "")
  {
    SuffixList(n);
    if n == "" then Some(Addresses.EmptyAddress)
    else if '@' !in n then Some(Addresses.MissingAt(n))
    else if !(EndsWith(n, ".com") || EndsWith(n, ".ru") || EndsWith(n, ".net")) then Some(Addresses.UnsupportedDomain(n))
    else None
  }

  /** The suffix test spelled out is the `valid_domains` test of the other class. */
  lemma {:induction false} SuffixList(n: string)
    ensures Addresses.HasAllowedSuffix(n) <==> EndsWith(n, ".com") || EndsWith(n, ".ru") || EndsWith(n, ".net")
  {
    assert Addresses.AllowedSuffixes[0] == ".com";
    assert Addresses.AllowedSuffixes[1] == ".ru";
    assert Addresses.AllowedSuffixes[2] == ".net";
  }

  /** Both classes report the same first failing check. */
  lemma {:induction false} ValidateAgrees(n: string)
    ensures Validate(n) == Addresses.Validate(n)
  {
    SuffixList(n);
  }

  /** The constructor; it accepts and rejects exactly what the other class does. */
  function Create(raw: string): (r: Result<Address, AddressError>)
    ensures r == Addresses.Create(raw)
  {
    var n := Normalized(raw);
    ValidateAgrees(n);
    match Validate(n)
    case Some(e) => Err(e)
    case None => Ok(Addresses.Address(raw, n))
  }

  /** The `login` property. */
  function Login(a: Address): (l: string)
    ensures l == Addresses.Login(a)
  {
    if '@' in a.normalized then a.normalized[..FirstIndex(a.normalized, '@')] else ""
  }

  /** The `domain` property. */
  function Domain(a: Address): (d: string)
    ensures d == Addresses.Domain(a)
  {
    if '@' in a.normalized then a.normalized[FirstIndex(a.normalized, '@') + 1..] else ""
  }

  /** The `masked` property. */
  function Masked(a: Address): (m: string)
    ensures m == Addresses.Masked(a)
  {
    var n := a.normalized;
    if '@' !in n then n
    else
      var i := FirstIndex(n, '@');
      var local, domain := n[..i], n[i + 1..];
      var maskedLocal := if |local| < 2 then local + "***" else local[..2] + "***";
      maskedLocal + "@" + domain
  }

  /** Raised by `__eq__` when `self._normalize` is looked up: the class has no such attribute. */
  datatype EqualityError = MissingNormalizeAttribute

  /** `__eq__` as written: a string operand reaches the missing method and raises. */
  function Equals(a: Address, other: Operand): (r: Result<bool, EqualityError>)
    ensures r.Err? <==> other.StringOperand?
    ensures r.Ok? ==> r.value == Addresses.Equals(a, other)
  {
    match other
    case AddressOperand(b) => Ok(a.normalized == b.normalized)
    case StringOperand(_) => Err(MissingNormalizeAttribute)
    case OtherOperand => Ok(false)
  }

  /** `__eq__` with the string normalised by the class's static method,
      `EmailAddress._normalized(other)`. Writing `self._normalized(other)`
      would not do: the constructor stores the normalised string in an
      instance attribute of that name, which hides the method. */
  function EqualsCorrected(a: Address, other: Operand): (r: bool)
    ensures r == Addresses.Equals(a, other)
  {
    match other
    case AddressOperand(b) => a.normalized == b.normalized
    case StringOperand(s) => a.normalized == Normalized(s)
    case OtherOperand => false
  }

  /** A concrete input on which the two `__eq__` disagree: the corrected one
      matches an upper-case spelling of the address, the written one raises. */
  lemma {:induction false} StringComparisonCounterexample(a: Address, s: string)
    requires a.normalized == "a@x.com" && s == "A@X.com"
    ensures Equals(a, Addresses.StringOperand(s)) == Err(MissingNormalizeAttribute)
    ensures EqualsCorrected(a, Addresses.StringOperand(s))
  {
    var n := a.normalized;
    assert Lower(s) == n by {
      assert forall k :: 0 <= k < |s| ==> Lower(s)[k] == n[k];
    }
    assert Addresses.IsNormalized(n);
    Addresses.LowerOfLowered(n);
    Addresses.NormalizeFixesNormalized(n);
  }
}
