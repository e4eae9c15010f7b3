/** `EmailAddress` as src/email_models.py defines it: an address is kept both
    as given and in normalised form; construction validates the normalised
    form, and every derived view and the equality work on it. */
module Addresses {
  import opened Results
  import opened Text

  /** The state of an `EmailAddress` object: `_original` and `_normalized`. */
  datatype Address = Address(original: string, normalized: string)

  /** The three `ValueError`s the constructor raises, in the order it checks for them. */
  datatype AddressError =
    | EmptyAddress
    | MissingAt(address: string)
    | UnsupportedDomain(address: string)

  /** The `valid_domains` list of `_validate`. */
  const AllowedSuffixes: seq<string> := [".com", ".ru", ".net"]

  predicate HasAllowedSuffix(s: string) {
    exists k :: 0 <= k < |AllowedSuffixes| && EndsWith(s, AllowedSuffixes[k])
  }

  /** What `_validate` lets through. */
  predicate WellFormed(n: string) {
    n != "" && '@' in n && HasAllowedSuffix(n)
  }

  /** The state of an address that construction produced. */
  predicate ValidAddress(a: Address) {
    a.normalized == Normalize(a.original) && WellFormed(a.normalized)
  }

  /** No upper-case letter and no whitespace at either end. */
  predicate IsNormalized(s: string) {
    IsLowered(s) && (|s| == 0 || (!IsSpace(s[0]) && !IsSpace(s[|s| - 1])))
  }

  /** `_normalize`: lower-case, then strip. */
  function Normalize(raw: string): (r: string)
    ensures r == Lower(Strip(raw))
    ensures IsNormalized(r)
    ensures r == "" <==> AllSpace(raw)
  {
    if raw == "" then ""
    else
      NormalizeFacts(raw);
      Strip(Lower(raw))
  }

  /** `_validate`: the first check that fails, if any. */
  function Validate(n: string): (r: Option<AddressError>)
    ensures r.None? <==> WellFormed(n)
    ensures r == Some(EmptyAddress) <==> n == ""
    ensures (r.Some? && r.value.MissingAt?) <==> n != "" && '@' !in n
    ensures r.Some? && !r.value.EmptyAddress? ==> r.value.address == n
  {
    if n == "" then Some(EmptyAddress)
    else if '@' !in n then Some(MissingAt(n))
    else if !HasAllowedSuffix(n) then Some(UnsupportedDomain(n))
    else None
  }

  /** The constructor `EmailAddress(raw)`: normalise, then validate or raise. */
  function Create(raw: string): (r: Result<Address, AddressError>)
    ensures r.Ok? <==> '@' in raw && HasAllowedSuffix(Normalize(raw))
    ensures r.Ok? ==> r.value == Address(raw, Normalize(raw)) && ValidAddress(r.value)
    ensures r == Err(EmptyAddress) <==> AllSpace(raw)
    ensures (r.Err? && r.error.MissingAt?) <==> !AllSpace(raw) && '@' !in raw
    ensures (r.Err? && r.error.UnsupportedDomain?) <==> '@' in raw && !HasAllowedSuffix(Normalize(raw))
    ensures r.Err? && !r.error.EmptyAddress? ==> r.error.address == Normalize(raw)
  {
    var n := Normalize(raw);
    AtSurvivesNormalize(raw);
    match Validate(n)
    case Some(e) => Err(e)
    case None => Ok(Address(raw, n))
  }

  /** The `login` property: the text before the first `@`, or "" without one. */
  function Login(a: Address): (l: string)
    ensures '@' !in l
    ensures l <= a.normalized
    ensures '@' !in a.normalized ==> l == ""
  {
    if '@' in a.normalized then a.normalized[..FirstIndex(a.normalized, '@')] else ""
  }

  /** The `domain` property: the text after the first `@`, or "" without one. */
  function Domain(a: Address): (d: string)
    ensures '@' in a.normalized ==> Login(a) + "@" + d == a.normalized
    ensures '@' !in a.normalized ==> d == ""
  {
    if '@' in a.normalized then
      var i := FirstIndex(a.normalized, '@');
      assert a.normalized == a.normalized[..i] + "@" + a.normalized[i + 1..];
      a.normalized[i + 1..]
    else ""
  }

  /** The `masked` property: at most two characters of the login, then `***@` and the domain. */
  function Masked(a: Address): (m: string)
    ensures '@' in a.normalized ==> m == Take(Login(a), 2) + "***" + "@" + Domain(a)
    ensures '@' !in a.normalized ==> m == a.normalized
  {
    var n := a.normalized;
    if '@' !in n then n
    else
      var i := FirstIndex(n, '@');
      var local, domain := n[..i], n[i + 1..];
      assert local == Login(a) && domain == Domain(a);
      var maskedLocal := if |local| < 2 then local + "***" else local[..2] + "***";
      assert maskedLocal == Take(local, 2) + "***" by {
        if |local| < 2 {
          assert Take(local, 2) == local;
        } else {
          assert Take(local, 2) == local[..2];
        }
      }
      maskedLocal + "@" + domain
  }

  /** The right-hand operand of `==`: another address, a string, or anything else. */
  datatype Operand = AddressOperand(address: Address) | StringOperand(text: string) | OtherOperand

  /** `__eq__`: two addresses with an `@` are equal when their logins and
      domains are; a string equals a well-formed address when it builds an
      address with the same normalised form; anything else is unequal. */
  function Equals(a: Address, other: Operand): (r: bool)
    ensures other.OtherOperand? ==> !r
    ensures other.AddressOperand? && '@' in a.normalized && '@' in other.address.normalized ==>
              (r <==> Login(a) == Login(other.address) && Domain(a) == Domain(other.address))
    ensures other.StringOperand? && WellFormed(a.normalized) ==>
              (r <==> Create(other.text).Ok? && Create(other.text).value.normalized == a.normalized)
  {
    match other
    case AddressOperand(b) =>
      SameParts(a, b);
      a.normalized == b.normalized
    case StringOperand(s) =>
      SameNormalForm(a, s);
      a.normalized == Normalize(s)
    case OtherOperand => false
  }

  /** Two addresses with an `@` have the same normalised form exactly when
      they have the same login and the same domain. */
  lemma {:induction false} SameParts(a: Address, b: Address)
    ensures '@' in a.normalized && '@' in b.normalized ==>
              (a.normalized == b.normalized <==> Login(a) == Login(b) && Domain(a) == Domain(b))
  {
    if '@' in a.normalized && '@' in b.normalized {
      assert Login(a) + "@" + Domain(a) == a.normalized;
      assert Login(b) + "@" + Domain(b) == b.normalized;
    }
  }

  /** A string normalises to a well-formed address's form exactly when it
      builds an address with that form. */
  lemma {:induction false} SameNormalForm(a: Address, s: string)
    ensures WellFormed(a.normalized) ==>
              (a.normalized == Normalize(s) <==> Create(s).Ok? && Create(s).value.normalized == a.normalized)
  {
    if WellFormed(a.normalized) && a.normalized == Normalize(s) {
      AtSurvivesNormalize(s);
    }
  }

  // ---------------------------------------------------------------- lemmas

  lemma {:induction false} LowerPrefix(s: string, k: nat)
    requires k <= |s|
    ensures Lower(s)[..k] == Lower(s[..k])
  {
    assert forall i :: 0 <= i < k ==> Lower(s)[..k][i] == Lower(s[..k])[i];
  }

  lemma {:induction false} LowerSuffix(s: string, k: nat)
    requires k <= |s|
    ensures Lower(s)[k..] == Lower(s[k..])
  {
    assert forall i :: 0 <= i < |s| - k ==> Lower(s)[k..][i] == Lower(s[k..])[i];
  }

  /** Lower-casing keeps whitespace where it is. */
  lemma {:induction false} LowerKeepsSpace(s: string)
    ensures AllSpace(Lower(s)) <==> AllSpace(s)
  {
    assert forall k :: 0 <= k < |s| ==> (IsSpace(Lower(s)[k]) <==> IsSpace(s[k]));
  }

  lemma {:induction false} LowerKeepsAt(s: string)
    ensures '@' in Lower(s) <==> '@' in s
  {
    var low := Lower(s);
    if '@' in low {
      var k :| 0 <= k < |low| && low[k] == '@';
      assert s[k] == '@';
    }
    if '@' in s {
      var k :| 0 <= k < |s| && s[k] == '@';
      assert low[k] == '@';
    }
  }

  lemma {:induction false} LowerIsLowered(s: string)
    ensures IsLowered(Lower(s))
  {
  }

  /** Lower-casing and stripping commute. */
  lemma {:induction false} TrimLeftLower(s: string)
    ensures TrimLeft(Lower(s)) == Lower(TrimLeft(s))
  {
    var low := Lower(s);
    var k := |s| - |TrimLeft(s)|;
    assert AllSpace(low[..k]) by {
      assert forall i :: 0 <= i < k ==> low[..k][i] == LowerChar(s[..k][i]);
    }
    assert k == |s| || !IsSpace(low[k]) by {
      if k < |s| {
        assert s[k] == TrimLeft(s)[0];
      }
    }
    TrimLeftUnique(low, k);
    LowerSuffix(s, k);
  }

  lemma {:induction false} TrimRightLower(s: string)
    ensures TrimRight(Lower(s)) == Lower(TrimRight(s))
  {
    var low := Lower(s);
    var k := |TrimRight(s)|;
    assert AllSpace(low[k..]) by {
      assert forall i :: 0 <= i < |s| - k ==> low[k..][i] == LowerChar(s[k..][i]);
    }
    assert k == 0 || !IsSpace(low[k - 1]) by {
      if k > 0 {
        assert s[k - 1] == TrimRight(s)[k - 1];
      }
    }
    TrimRightUnique(low, k);
    LowerPrefix(s, k);
  }

  lemma {:induction false} NormalizeFacts(raw: string)
    ensures Strip(Lower(raw)) == Lower(Strip(raw))
    ensures IsNormalized(Strip(Lower(raw)))
    ensures Strip(Lower(raw)) == "" <==> AllSpace(raw)
  {
    StripLowerCommute(raw);
    LowerIsLowered(Strip(raw));
    LowerKeepsSpace(raw);
  }

  /** Stripping and lower-casing can be done in either order. */
  lemma {:induction false} StripLowerCommute(raw: string)
    ensures Strip(Lower(raw)) == Lower(Strip(raw))
  {
    var t := TrimLeft(raw);
    TrimLeftLower(raw);
    TrimRightLower(t);
    assert Strip(Lower(raw)) == TrimRight(TrimLeft(Lower(raw)));
    assert Strip(raw) == TrimRight(t);
  }

  lemma {:induction false} NoAtInSpace(s: string)
    requires AllSpace(s)
    ensures '@' !in s
  {
  }

  lemma {:induction false} AtInSplit(s: string, k: int)
    requires 0 <= k <= |s|
    ensures '@' in s <==> '@' in s[..k] || '@' in s[k..]
  {
    assert s == s[..k] + s[k..];
  }

  /** Stripping removes only whitespace, so never an `@`. */
  lemma {:induction false} StripKeepsAt(s: string)
    ensures '@' in Strip(s) <==> '@' in s
  {
    var t := TrimLeft(s);
    AtInSplit(s, |s| - |t|);
    NoAtInSpace(s[..|s| - |t|]);
    var r := TrimRight(t);
    AtInSplit(t, |r|);
    NoAtInSpace(t[|r|..]);
  }

  /** Normalising neither adds nor removes an `@`. */
  lemma {:induction false} AtSurvivesNormalize(raw: string)
    ensures '@' in Normalize(raw) <==> '@' in raw
  {
    StripKeepsAt(raw);
    LowerKeepsAt(Strip(raw));
  }

  lemma {:induction false} LowerOfLowered(s: string)
    requires IsLowered(s)
    ensures Lower(s) == s
  {
    assert forall i :: 0 <= i < |s| ==> Lower(s)[i] == s[i];
  }

  /** A normalised string normalises to itself. */
  lemma {:induction false} NormalizeFixesNormalized(s: string)
    requires IsNormalized(s)
    ensures Normalize(s) == s
  {
    if s != "" {
      LowerOfLowered(s);
      assert s[..0] == [] && s[|s|..] == [];
      TrimLeftUnique(s, 0);
      TrimRightUnique(s, |s|);
    }
  }

  /** `_normalize` is idempotent. */
  lemma {:induction false} NormalizeIdempotent(raw: string)
    ensures Normalize(Normalize(raw)) == Normalize(raw)
  {
    NormalizeFixesNormalized(Normalize(raw));
  }

  /** Splitting on the first `@` and putting the halves back together gives the
      address back; only the domain may hold a further `@`. */
  lemma {:induction false} SplitRoundTrip(a: Address)
    requires ValidAddress(a)
    ensures Login(a) + "@" + Domain(a) == a.normalized
    ensures '@' !in Login(a)
    ensures |Masked(a)| == Min(|Login(a)|, 2) + 4 + |Domain(a)|
  {
  }

  /** Comparing a valid address with a string is the same as building an
      address from the string and comparing the two addresses. */
  lemma {:induction false} StringEqualityViaCreate(a: Address, s: string)
    requires ValidAddress(a)
    ensures Equals(a, StringOperand(s)) <==> Create(s).Ok? && Equals(a, AddressOperand(Create(s).value))
  {
    if Equals(a, StringOperand(s)) {
      AtSurvivesNormalize(s);
    }
  }

  /** An address equals the string it was built from. */
  lemma {:induction false} EqualsOwnOriginal(raw: string)
    requires Create(raw).Ok?
    ensures Equals(Create(raw).value, StringOperand(raw))
  {
  }

  /** Address-to-address equality is an equivalence. */
  lemma {:induction false} EqualsIsEquivalence(a: Address, b: Address, c: Address)
    ensures Equals(a, AddressOperand(a))
    ensures Equals(a, AddressOperand(b)) ==> Equals(b, AddressOperand(a))
    ensures Equals(a, AddressOperand(b)) && Equals(b, AddressOperand(c)) ==> Equals(a, AddressOperand(c))
  {
  }

  /** A string without `@` fails on the `@` check before the suffix check. */
  lemma {:induction false} ExampleMissingAtFirst(raw: string)
    requires raw == "abc.org"
    ensures Create(raw) == Err(MissingAt(raw))
  {
    assert raw[0] == 'a';
    assert !AllSpace(raw);
    assert '@' !in raw;
    assert IsLowered(raw);
    NormalizeFixesNormalized(raw);
  }

  /** A whitespace-only address fails as empty. */
  lemma {:induction false} ExampleBlank()
    ensures Create(" \t ") == Err(EmptyAddress)
  {
    assert AllSpace(" \t ");
  }

  /** A one-character login is kept whole before the stars. */
  lemma {:induction false} ExampleMaskOne(a: Address)
    requires a.normalized == "a@x.com"
    ensures Masked(a) == "a***@x.com"
  {
    var n := a.normalized;
    assert n[..1] == "a";
    FirstIndexUnique(n, '@', 1);
    assert Take(Login(a), 2) == "a";
    assert Domain(a) == "x.com";
  }

  /** Only the first `@` splits: the domain keeps any later one. */
  lemma {:induction false} ExampleSecondAt(a: Address)
    requires a.normalized == "a@b@c.com"
    ensures Domain(a) == "b@c.com"
  {
    var n := a.normalized;
    assert n[..1] == "a";
    FirstIndexUnique(n, '@', 1);
  }
}
