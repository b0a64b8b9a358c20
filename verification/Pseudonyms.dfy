/** Deterministic pseudonyms: one per identity, distinct within a data type. */
module Pseudonyms {
  import opened Text
  import opened Results

  datatype Identity = Identity(dataType: string, name: string)

  datatype Exhausted = NamespaceExhausted(dataType: string)

  /** The digest of an identity under a salt; nothing is assumed about it. */
  type Digest = (Identity, nat) -> string

  // ---------- Rendering ----------

  function HexDigit(c: char): nat {
    if '0' <= c <= '9' then (c - '0') as nat
    else if 'a' <= c <= 'f' then (c - 'a') as nat + 10
    else 0
  }

  function HexValue(s: string): nat {
    if s == "" then 0 else HexValue(s[..|s| - 1]) * 16 + HexDigit(s[|s| - 1])
  }

  function Decimal(n: nat): string {
    (if n < 10 then "" else Decimal(n / 10)) + [('0' as int + n % 10) as char]
  }

  function Prefix(s: string, n: nat): string {
    if |s| <= n then s else s[..n]
  }

  function FourDigits(n: nat): string {
    var d := Decimal(n);
    (if |d| == 1 then "000" else if |d| == 2 then "00" else if |d| == 3 then "0" else "") + d
  }

  function PhoneNumber(n: nat): string {
    "+1-555-" + FourDigits(n % 10000)
  }

  function Address(n: nat): string {
    "198.51.100." + Decimal(1 + n % 253)
  }

  function Render(dataType: string, digest: string): string {
    var short, number := Prefix(digest, 10), HexValue(Prefix(digest, 8));
    if dataType == "name" then "Person-" + short
    else if dataType == "email" then "user-" + short + "@example.invalid"
    else if dataType == "phone" then PhoneNumber(number)
    else if dataType == "ip_address" then Address(number)
    else if dataType == "secret" then "[REDACTED-" + short + "]"
    else "anon-" + dataType + "-" + short
  }

  lemma RenderIsNonEmpty(dataType: string, digest: string)
    ensures Render(dataType, digest) != ""
  {
  }

  // ---------- What a rendering looks like ----------

  const HEX_DIGITS := "0123456789abcdef"
  const DECIMAL_DIGITS := "0123456789"

  /** Where the character stands in the alphabet; its length if it does not. */
  ghost function IndexIn(alphabet: string, c: char): (k: nat)
    ensures k <= |alphabet| && (k < |alphabet| ==> alphabet[k] == c)
  {
    if alphabet == "" || alphabet[0] == c then 0 else IndexIn(alphabet[1..], c) + 1
  }

  /** The number a string of digits stands for, position by position. */
  ghost function NumberIn(alphabet: string, s: string): nat {
    if s == "" then 0 else NumberIn(alphabet, s[..|s| - 1]) * |alphabet| + IndexIn(alphabet, s[|s| - 1])
  }

  ghost predicate AllIn(alphabet: string, s: string) {
    forall c :: c in s ==> c in alphabet
  }

  lemma HexDigitIsIndex(c: char)
    requires c in HEX_DIGITS
    ensures HexDigit(c) == IndexIn(HEX_DIGITS, c)
  {
    var k :| 0 <= k < 16 && HEX_DIGITS[k] == c;
    HexCharacter(k);
    forall j | 0 <= j < k ensures HEX_DIGITS[j] != c {
      HexCharacter(j);
    }
    hide *;
    HexDigitValue(k);
    IndexAt(HEX_DIGITS, k);
  }

  function NthHex(k: nat): char
    requires k < 16
  {
    if k < 10 then ('0' as int + k) as char else ('a' as int + k - 10) as char
  }

  lemma HexDigitValue(k: nat)
    requires k < 16
    ensures HexDigit(NthHex(k)) == k
  {
  }

  lemma HexCharacter(k: nat)
    requires k < 16
    ensures HEX_DIGITS[k] == NthHex(k)
  {
  }

  lemma {:induction false} IndexAt(alphabet: string, k: nat)
    requires k < |alphabet| && forall j :: 0 <= j < k ==> alphabet[j] != alphabet[k]
    ensures IndexIn(alphabet, alphabet[k]) == k
  {
    if k > 0 {
      assert forall j :: 0 <= j < k - 1 ==> alphabet[1..][j] == alphabet[j + 1];
      IndexAt(alphabet[1..], k - 1);
    }
  }

  lemma {:induction false} HexValueIsNumber(s: string)
    requires AllIn(HEX_DIGITS, s)
    ensures HexValue(s) == NumberIn(HEX_DIGITS, s)
  {
    hide HexDigit, IndexIn;
    if s != "" {
      var n := |s| - 1;
      assert s[n] in s && forall c :: c in s[..n] ==> c in s;
      HexValueIsNumber(s[..n]);
      HexDigitIsIndex(s[n]);
    }
  }

  lemma DigitIsIndex(d: nat)
    requires d < 10
    ensures IndexIn(DECIMAL_DIGITS, ('0' as int + d) as char) == d && ('0' as int + d) as char in DECIMAL_DIGITS
  {
    IndexAt(DECIMAL_DIGITS, d);
    assert DECIMAL_DIGITS[d] == ('0' as int + d) as char;
  }

  lemma NumberSnoc(alphabet: string, s: string, c: char)
    ensures NumberIn(alphabet, s + [c]) == NumberIn(alphabet, s) * |alphabet| + IndexIn(alphabet, c)
    ensures NumberIn(alphabet, "") == 0
  {
    assert (s + [c])[..|s|] == s;
  }

  /** Decimal notation reads back, without leading zeros. */
  lemma {:induction false} DecimalReadsBack(n: nat)
    ensures NumberIn(DECIMAL_DIGITS, Decimal(n)) == n && AllIn(DECIMAL_DIGITS, Decimal(n))
    ensures Decimal(n) != "" && (n > 0 ==> Decimal(n)[0] != '0') && (n == 0 ==> Decimal(n) == "0")
  {
    hide IndexIn, NumberIn;
    var front, last := if n < 10 then "" else Decimal(n / 10), ('0' as int + n % 10) as char;
    DigitIsIndex(n % 10);
    NumberSnoc(DECIMAL_DIGITS, front, last);
    if n >= 10 {
      DecimalReadsBack(n / 10);
    }
    assert Decimal(n) == front + [last];
  }

  lemma {:induction false} LeadingZero(s: string)
    ensures NumberIn(DECIMAL_DIGITS, "0" + s) == NumberIn(DECIMAL_DIGITS, s)
    decreases |s|
  {
    hide IndexIn, NumberIn;
    DigitIsIndex(0);
    if s == "" {
      NumberSnoc(DECIMAL_DIGITS, "", '0');
      assert "0" + s == "" + ['0'];
    } else {
      var n := |s| - 1;
      LeadingZero(s[..n]);
      NumberSnoc(DECIMAL_DIGITS, s[..n], s[n]);
      NumberSnoc(DECIMAL_DIGITS, "0" + s[..n], s[n]);
      assert s[..n] + [s[n]] == s && "0" + s[..n] + [s[n]] == "0" + s;
    }
  }

  lemma DecimalLength(n: nat)
    ensures |Decimal(n)| == 1 + if n < 10 then 0 else |Decimal(n / 10)|
    ensures 1 <= |Decimal(n)|
  {
  }

  lemma FourDigitsReadBack(n: nat)
    requires n < 10000
    ensures |FourDigits(n)| == 4 && AllIn(DECIMAL_DIGITS, FourDigits(n)) && NumberIn(DECIMAL_DIGITS, FourDigits(n)) == n
  {
    var d := Decimal(n);
    hide NumberIn, IndexIn, Decimal;
    DecimalReadsBack(n);
    DecimalLength(n);
    DecimalLength(n / 10);
    DecimalLength(n / 10 / 10);
    DecimalLength(n / 10 / 10 / 10);
    LeadingZero(d);
    LeadingZero("0" + d);
    LeadingZero("00" + d);
    assert "0" + ("0" + d) == "00" + d && "0" + ("00" + d) == "000" + d;
    assert "" + d == d && FourDigits(n) in {d, "0" + d, "00" + d, "000" + d};
  }

  lemma PhoneSpelled(number: nat)
    ensures IsPhone(PhoneNumber(number), number % 10000)
  {
    FourDigitsReadBack(number % 10000);
    hide NumberIn, AllIn, FourDigits;
    var four := FourDigits(number % 10000);
    assert ("+1-555-" + four)[7..] == four && ("+1-555-" + four)[..7] == "+1-555-";
  }

  lemma AddressSpelled(number: nat)
    ensures IsAddress(Address(number), 1 + number % 253)
  {
    DecimalReadsBack(1 + number % 253);
    hide NumberIn, AllIn, Decimal;
    var octet := Decimal(1 + number % 253);
    assert ("198.51.100." + octet)[11..] == octet && ("198.51.100." + octet)[..11] == "198.51.100.";
  }

  /** Ten characters of the digest after a label, or a number below 10000 in four digits, or one from
      1 to 253 without leading zeros, as the data type asks. */
  ghost predicate Shaped(r: string, dataType: string, short: string, number: nat) {
    if dataType == "name" then r == "Person-" + short
    else if dataType == "email" then r == "user-" + short + "@example.invalid"
    else if dataType == "phone" then IsPhone(r, number % 10000)
    else if dataType == "ip_address" then IsAddress(r, 1 + number % 253)
    else if dataType == "secret" then r == "[REDACTED-" + short + "]"
    else r == "anon-" + dataType + "-" + short
  }

  ghost predicate IsPhone(r: string, line: nat) {
    |r| == 11 && r[..7] == "+1-555-" && AllIn(DECIMAL_DIGITS, r[7..]) && NumberIn(DECIMAL_DIGITS, r[7..]) == line
  }

  ghost predicate IsAddress(r: string, host: nat) {
    && |r| > 11 && r[..11] == "198.51.100." && AllIn(DECIMAL_DIGITS, r[11..]) && r[11] != '0'
    && NumberIn(DECIMAL_DIGITS, r[11..]) == host
  }

  lemma RenderShaped(dataType: string, digest: string)
    ensures Shaped(Render(dataType, digest), dataType, Prefix(digest, 10), HexValue(Prefix(digest, 8)))
  {
    hide HexValue, PhoneNumber, Address, IsPhone, IsAddress, Prefix;
    PhoneSpelled(HexValue(Prefix(digest, 8)));
    AddressSpelled(HexValue(Prefix(digest, 8)));
  }

  lemma FirstCharacters(digest: string, n: nat)
    requires n <= |digest| && AllIn(HEX_DIGITS, digest)
    ensures Prefix(digest, n) == digest[..n] && AllIn(HEX_DIGITS, digest[..n])
  {
    assert forall c :: c in digest[..n] ==> c in digest;
  }

  /** For a digest in hexadecimal, as SHA-256 gives it. */
  lemma RenderSpelled(dataType: string, digest: string)
    requires |digest| >= 10 && AllIn(HEX_DIGITS, digest)
    ensures Shaped(Render(dataType, digest), dataType, digest[..10], NumberIn(HEX_DIGITS, digest[..8]))
  {
    hide *;
    FirstCharacters(digest, 8);
    FirstCharacters(digest, 10);
    HexValueIsNumber(digest[..8]);
    RenderShaped(dataType, digest);
  }

  function Candidate(digest: Digest, id: Identity, salt: nat): string {
    Render(id.dataType, digest(id, salt))
  }

  const DOMAIN_CAPACITY: map<string, nat> := map["phone" := 10000, "ip_address" := 253]

  function AttemptCap(dataType: string): nat {
    if dataType in DOMAIN_CAPACITY then DOMAIN_CAPACITY[dataType] else 100000
  }

  // ---------- Order of processing ----------

  predicate IdentityLess(a: Identity, b: Identity) {
    StringLess(a.dataType, b.dataType) || (a.dataType == b.dataType && StringLess(a.name, b.name))
  }

  lemma IdentityLessTransitive(a: Identity, b: Identity, c: Identity)
    requires IdentityLess(a, b) && IdentityLess(b, c)
    ensures IdentityLess(a, c)
  {
    if StringLess(a.dataType, b.dataType) && StringLess(b.dataType, c.dataType) {
      StringLessTransitive(a.dataType, b.dataType, c.dataType);
    }
    if StringLess(a.name, b.name) && StringLess(b.name, c.name) {
      StringLessTransitive(a.name, b.name, c.name);
    }
  }

  lemma IdentityLessTotal(a: Identity, b: Identity)
    ensures IdentityLess(a, b) || a == b || IdentityLess(b, a)
  {
    StringLessTotal(a.dataType, b.dataType);
    StringLessTotal(a.name, b.name);
  }

  lemma LeastExists(s: set<Identity>) returns (least: Identity)
    requires s != {}
    ensures least in s && forall x :: x in s && x != least ==> IdentityLess(least, x)
  {
    var x :| x in s;
    if s == {x} {
      least := x;
    } else {
      var least' := LeastExists(s - {x});
      IdentityLessTotal(x, least');
      least := if IdentityLess(x, least') then x else least';
      forall y | y in s && y != least ensures IdentityLess(least, y) {
        if y != x && least == x {
          if y != least' {
            IdentityLessTransitive(x, least', y);
          }
        }
      }
    }
  }

  ghost predicate IsSortedSet(xs: seq<Identity>, s: set<Identity>) {
    && (forall x :: x in xs <==> x in s)
    && (forall i, j :: 0 <= i < j < |xs| ==> xs[i] != xs[j] && IdentityLess(xs[i], xs[j]))
  }

  /** A set has one sorted listing, so what is computed from it depends on the set alone. */
  lemma {:induction false} SortedSetUnique(xs: seq<Identity>, ys: seq<Identity>, s: set<Identity>)
    requires IsSortedSet(xs, s) && IsSortedSet(ys, s)
    ensures xs == ys
    decreases |xs|
  {
    EmptyListing(xs, s);
    EmptyListing(ys, s);
    if xs != [] {
      assert xs[0] in ys && ys[0] in xs;
      if xs[0] != ys[0] {
        IdentityAsymmetric(xs[0], ys[0]);
        assert false;
      }
      var rest := s - {xs[0]};
      TailSorted(xs, s);
      TailSorted(ys, s);
      SortedSetUnique(xs[1..], ys[1..], rest);
    }
  }

  lemma EmptyListing(xs: seq<Identity>, s: set<Identity>)
    requires IsSortedSet(xs, s)
    ensures xs == [] <==> s == {}
  {
    if xs != [] {
      assert xs[0] in s;
    }
  }

  lemma TailSorted(xs: seq<Identity>, s: set<Identity>)
    requires IsSortedSet(xs, s) && xs != []
    ensures IsSortedSet(xs[1..], s - {xs[0]})
  {
  }

  lemma IdentityAsymmetric(a: Identity, b: Identity)
    ensures !(IdentityLess(a, b) && IdentityLess(b, a))
  {
    if StringLess(a.dataType, b.dataType) {
      StringLessAsymmetric(a.dataType, b.dataType);
    }
    if StringLess(a.name, b.name) {
      StringLessAsymmetric(a.name, b.name);
    }
  }

  lemma Irreflexive(a: Identity)
    ensures !IdentityLess(a, a)
  {
    IdentityAsymmetric(a, a);
  }

  function InsertUnique(xs: seq<Identity>, x: Identity): seq<Identity> {
    if xs == [] then [x]
    else if x == xs[0] then xs
    else if IdentityLess(x, xs[0]) then [x] + xs
    else [xs[0]] + InsertUnique(xs[1..], x)
  }

  lemma {:induction false} InsertUniqueSorted(xs: seq<Identity>, s: set<Identity>, x: Identity)
    requires IsSortedSet(xs, s)
    ensures IsSortedSet(InsertUnique(xs, x), s + {x})
  {
    if xs == [] {
    } else if x == xs[0] {
      assert x in s;
      assert s + {x} == s;
    } else if IdentityLess(x, xs[0]) {
      var r := [x] + xs;
      forall j | 1 <= j < |r| ensures r[j] != x && IdentityLess(x, r[j]) {
        if j > 1 {
          IdentityLessTransitive(x, xs[0], xs[j - 1]);
        }
        Irreflexive(x);
      }
    } else {
      TailSorted(xs, s);
      InsertUniqueSorted(xs[1..], s - {xs[0]}, x);
      IdentityLessTotal(x, xs[0]);
      var tail := InsertUnique(xs[1..], x);
      assert xs[0] in s && s - {xs[0]} + {x} + {xs[0]} == s + {x};
      forall y | y in tail ensures y != xs[0] && IdentityLess(xs[0], y) {
        assert y == x || y in xs[1..];
      }
    }
  }

  ghost function AsSet(xs: seq<Identity>): set<Identity> {
    set x | x in xs
  }

  /** The sorted listing of the distinct identities. */
  function SortedUnique(xs: seq<Identity>): (r: seq<Identity>)
    ensures IsSortedSet(r, AsSet(xs))
  {
    if xs == [] then []
    else
      var n := |xs| - 1;
      InsertUniqueSorted(SortedUnique(xs[..n]), AsSet(xs[..n]), xs[n]);
      assert xs == xs[..n] + [xs[n]];
      assert AsSet(xs) == AsSet(xs[..n]) + {xs[n]};
      InsertUnique(SortedUnique(xs[..n]), xs[n])
  }

  // ---------- The plan ----------

  function Taken(plan: map<Identity, string>, dataType: string): set<string> {
    set id | id in plan && id.dataType == dataType :: plan[id]
  }

  /** The least salt, from `salt` on and within the cap, whose candidate is free. */
  function FirstFree(digest: Digest, id: Identity, taken: set<string>, salt: nat): Option<nat>
    decreases AttemptCap(id.dataType) + 1 - salt
  {
    if Candidate(digest, id, salt) !in taken then Some(salt)
    else if salt + 1 > AttemptCap(id.dataType) then None
    else FirstFree(digest, id, taken, salt + 1)
  }

  function Allocate(digest: Digest, ids: seq<Identity>, plan: map<Identity, string>): Result<map<Identity, string>, Exhausted> {
    if ids == [] then Ok(plan)
    else
      match FirstFree(digest, ids[0], Taken(plan, ids[0].dataType), 0)
      case None => Err(NamespaceExhausted(ids[0].dataType))
      case Some(salt) => Allocate(digest, ids[1..], plan[ids[0] := Candidate(digest, ids[0], salt)])
  }

  function CountOf(ids: seq<Identity>, dataType: string): nat {
    if ids == [] then 0
    else CountOf(ids[..|ids| - 1], dataType) + if ids[|ids| - 1].dataType == dataType then 1 else 0
  }

  function Plan(digest: Digest, identities: seq<Identity>): Result<map<Identity, string>, Exhausted> {
    var ids := SortedUnique(identities);
    if CountOf(ids, "phone") > DOMAIN_CAPACITY["phone"] then Err(NamespaceExhausted("phone"))
    else if CountOf(ids, "ip_address") > DOMAIN_CAPACITY["ip_address"] then Err(NamespaceExhausted("ip_address"))
    else Allocate(digest, ids, map[])
  }

  function Lookup(counts: map<string, nat>, t: string): nat {
    if t in counts then counts[t] else 0
  }

  method CountTypes(unique: seq<Identity>) returns (counts: map<string, nat>)
    ensures forall t :: Lookup(counts, t) == CountOf(unique, t)
  {
    counts := map[];
    for i := 0 to |unique|
      invariant forall t :: Lookup(counts, t) == CountOf(unique[..i], t)
    {
      var t := unique[i].dataType;
      counts := counts[t := Lookup(counts, t) + 1];
      assert unique[..i + 1][..i] == unique[..i];
    }
    assert unique[..|unique|] == unique;
  }

  /** The collision loop: raise the salt until the candidate is free or the cap is passed. */
  method Search(digest: Digest, id: Identity, seen: set<string>) returns (found: Option<nat>)
    ensures found == FirstFree(digest, id, seen, 0)
  {
    var cap := AttemptCap(id.dataType);
    var salt: nat := 0;
    while Candidate(digest, id, salt) in seen
      invariant salt <= cap
      invariant FirstFree(digest, id, seen, salt) == FirstFree(digest, id, seen, 0)
      decreases cap - salt
    {
      salt := salt + 1;
      if salt > cap {
        return None;
      }
    }
    return Some(salt);
  }

  method BuildReplacements(digest: Digest, identities: seq<Identity>)
    returns (r: Result<map<Identity, string>, Exhausted>)
    ensures r == Plan(digest, identities)
  {
    var unique := SortedUnique(identities);
    var counts := CountTypes(unique);
    if Lookup(counts, "phone") > DOMAIN_CAPACITY["phone"] {
      return Err(NamespaceExhausted("phone"));
    }
    if Lookup(counts, "ip_address") > DOMAIN_CAPACITY["ip_address"] {
      return Err(NamespaceExhausted("ip_address"));
    }
    r := AllocateAll(digest, unique);
  }

  method AllocateAll(digest: Digest, unique: seq<Identity>) returns (r: Result<map<Identity, string>, Exhausted>)
    requires forall i, j :: 0 <= i < j < |unique| ==> unique[i] != unique[j]
    ensures r == Allocate(digest, unique, map[])
  {
    hide FirstFree, AttemptCap, Candidate, Taken;
    var replacements: map<Identity, string> := map[];
    var usedByType: map<string, set<string>> := map[];
    NothingTaken();
    for i := 0 to |unique|
      invariant Allocate(digest, unique[i..], replacements) == Allocate(digest, unique, map[])
      invariant forall t :: Used(usedByType, t) == Taken(replacements, t)
      invariant forall j :: i <= j < |unique| ==> unique[j] !in replacements
    {
      var id := unique[i];
      assert unique[i..][1..] == unique[i + 1..];
      var seen := Used(usedByType, id.dataType);
      var found := Search(digest, id, seen);
      if found.None? {
        return Err(NamespaceExhausted(id.dataType));
      }
      var candidate := Candidate(digest, id, found.value);
      TakenGrows(replacements, id, candidate);
      ghost var used0 := usedByType;
      usedByType := usedByType[id.dataType := seen + {candidate}];
      ghost var replacements0 := replacements;
      replacements := replacements[id := candidate];
      forall t ensures Used(usedByType, t) == Taken(replacements, t) {
        assert Used(used0, t) == Taken(replacements0, t);
      }
    }
    r := Ok(replacements);
  }

  lemma NothingTaken()
    ensures forall t :: Taken(map[], t) == {}
  {
  }

  function Used(usedByType: map<string, set<string>>, t: string): set<string> {
    if t in usedByType then usedByType[t] else {}
  }

  lemma TakenGrows(plan: map<Identity, string>, id: Identity, candidate: string)
    requires id !in plan
    ensures forall t :: Taken(plan[id := candidate], t) == Taken(plan, t) + if t == id.dataType then {candidate} else {}
  {
    var plan' := plan[id := candidate];
    forall t ensures Taken(plan', t) == Taken(plan, t) + if t == id.dataType then {candidate} else {} {
      forall c | c in Taken(plan, t) ensures c in Taken(plan', t) {
        var k :| k in plan && k.dataType == t && plan[k] == c;
        assert plan'[k] == c;
      }
      if t == id.dataType {
        assert plan'[id] == candidate;
      }
    }
  }

  // ---------- What the plan promises ----------

  /** Distinct identities of one data type hold distinct pseudonyms. */
  ghost predicate DistinctPerType(plan: map<Identity, string>) {
    forall a, b :: a in plan && b in plan && a != b && a.dataType == b.dataType ==> plan[a] != plan[b]
  }

  lemma FirstFreeIsFree(digest: Digest, id: Identity, taken: set<string>, salt: nat)
    requires salt <= AttemptCap(id.dataType)
    ensures match FirstFree(digest, id, taken, salt)
      case None => forall s: nat :: salt <= s <= AttemptCap(id.dataType) ==> Candidate(digest, id, s) in taken
      case Some(s) =>
        && salt <= s <= AttemptCap(id.dataType) && Candidate(digest, id, s) !in taken
        && forall s': nat :: salt <= s' < s ==> Candidate(digest, id, s') in taken
    decreases AttemptCap(id.dataType) - salt
  {
    if salt < AttemptCap(id.dataType) {
      FirstFreeIsFree(digest, id, taken, salt + 1);
    }
  }

  /** Every pseudonym is a rendering of its own identity's digest. */
  ghost predicate FromDigest(digest: Digest, plan: map<Identity, string>) {
    forall id :: id in plan ==> exists s: nat :: plan[id] == Candidate(digest, id, s)
  }

  lemma {:induction false} AllocateInjective(digest: Digest, ids: seq<Identity>, plan: map<Identity, string>)
    requires DistinctPerType(plan) && FromDigest(digest, plan)
    requires forall i, j :: 0 <= i < j < |ids| ==> ids[i] != ids[j]
    requires forall id :: id in ids ==> id !in plan
    ensures var r := Allocate(digest, ids, plan);
      r.Ok? ==> DistinctPerType(r.value) && r.value.Keys == plan.Keys + AsSet(ids) && FromDigest(digest, r.value)
    decreases |ids|
  {
    hide DistinctPerType, FromDigest, Candidate, FirstFree, AttemptCap;
    if ids != [] {
      var id := ids[0];
      var free := FirstFree(digest, id, Taken(plan, id.dataType), 0);
      if free.Some? {
        AllocateStep(digest, id, plan, free.value);
        assert id in ids;
        AllocateInjective(digest, ids[1..], plan[id := Candidate(digest, id, free.value)]);
        assert AsSet(ids) == {id} + AsSet(ids[1..]);
      }
    }
  }

  lemma AllocateStep(digest: Digest, id: Identity, plan: map<Identity, string>, salt: nat)
    requires DistinctPerType(plan) && FromDigest(digest, plan) && id !in plan
    requires FirstFree(digest, id, Taken(plan, id.dataType), 0) == Some(salt)
    ensures DistinctPerType(plan[id := Candidate(digest, id, salt)])
    ensures FromDigest(digest, plan[id := Candidate(digest, id, salt)])
  {
    hide Candidate;
    FirstFreeIsFree(digest, id, Taken(plan, id.dataType), 0);
    forall a | a in plan && a.dataType == id.dataType ensures plan[a] != Candidate(digest, id, salt) {
      assert plan[a] in Taken(plan, id.dataType);
    }
  }

  /** A plan covers exactly the identities, gives each a rendering of its own digest, and is
      injective within every data type, whatever the digest. */
  lemma PlanIsInjective(digest: Digest, identities: seq<Identity>)
    requires Plan(digest, identities).Ok?
    ensures var plan := Plan(digest, identities).value;
      plan.Keys == AsSet(identities) && DistinctPerType(plan) && FromDigest(digest, plan)
  {
    var ids := SortedUnique(identities);
    AllocateInjective(digest, ids, map[]);
    assert AsSet(ids) == AsSet(identities);
  }

  // ---------- Who gets which salt ----------

  /** How many salts beyond the first are tried. */
  ghost function Tries(dataType: string): nat {
    if dataType == "phone" then 10000 else if dataType == "ip_address" then 253 else 100000
  }

  /** An identity of the same type, earlier in name, holds `w`. */
  ghost predicate HeldEarlier(plan: map<Identity, string>, id: Identity, w: string) {
    exists other :: other in plan && other.dataType == id.dataType && StringLess(other.name, id.name) && plan[other] == w
  }

  /** The first candidate that no earlier identity holds. */
  ghost predicate IsLeast(digest: Digest, plan: map<Identity, string>, id: Identity, salt: nat) {
    && id in plan && salt <= Tries(id.dataType) && plan[id] == Candidate(digest, id, salt)
    && forall s: nat :: s < salt ==> HeldEarlier(plan, id, Candidate(digest, id, s))
  }

  ghost predicate GetsLeast(digest: Digest, plan: map<Identity, string>, id: Identity) {
    exists salt: nat :: IsLeast(digest, plan, id, salt)
  }

  /** All candidates of `id` are held by identities before it. */
  ghost predicate IsExhausted(digest: Digest, plan: map<Identity, string>, id: Identity) {
    forall s: nat :: s <= Tries(id.dataType) ==> HeldEarlier(plan, id, Candidate(digest, id, s))
  }

  ghost predicate Extends(plan: map<Identity, string>, more: map<Identity, string>) {
    forall id :: id in plan ==> id in more && more[id] == plan[id]
  }

  ghost predicate AllBefore(plan: map<Identity, string>, ids: seq<Identity>) {
    forall other, id :: other in plan && id in ids ==> IdentityLess(other, id)
  }

  lemma TakenIsHeld(plan: map<Identity, string>, id: Identity, w: string)
    requires w in Taken(plan, id.dataType) && forall other :: other in plan ==> IdentityLess(other, id)
    ensures HeldEarlier(plan, id, w)
  {
    var other :| other in plan && other.dataType == id.dataType && plan[other] == w;
    StringLessIrreflexive(id.dataType);
  }

  lemma HeldLonger(plan: map<Identity, string>, more: map<Identity, string>, id: Identity, w: string)
    requires Extends(plan, more) && HeldEarlier(plan, id, w)
    ensures HeldEarlier(more, id, w)
  {
  }

  lemma LeastLonger(digest: Digest, plan: map<Identity, string>, more: map<Identity, string>, id: Identity)
    requires Extends(plan, more) && GetsLeast(digest, plan, id)
    ensures GetsLeast(digest, more, id)
  {
    hide HeldEarlier, Candidate;
    var salt: nat :| IsLeast(digest, plan, id, salt);
    forall s: nat | s < salt ensures HeldEarlier(more, id, Candidate(digest, id, s)) {
      HeldLonger(plan, more, id, Candidate(digest, id, s));
    }
    assert IsLeast(digest, more, id, salt);
  }

  /** One more identity gets the first candidate that is free. */
  lemma NextGetsLeast(digest: Digest, plan: map<Identity, string>, id: Identity)
    requires id !in plan && forall other :: other in plan ==> IdentityLess(other, id)
    ensures match FirstFree(digest, id, Taken(plan, id.dataType), 0)
      case None => IsExhausted(digest, plan, id)
      case Some(salt) => GetsLeast(digest, plan[id := Candidate(digest, id, salt)], id)
  {
    FirstFreeIsFree(digest, id, Taken(plan, id.dataType), 0);
    assert Tries(id.dataType) == AttemptCap(id.dataType);
    hide Candidate, FirstFree, HeldEarlier, Taken, AttemptCap, Tries, IdentityLess;
    forall w | w in Taken(plan, id.dataType) ensures HeldEarlier(plan, id, w) {
      TakenIsHeld(plan, id, w);
    }
    match FirstFree(digest, id, Taken(plan, id.dataType), 0) {
      case None =>
      case Some(salt) =>
        var more := plan[id := Candidate(digest, id, salt)];
        forall s: nat | s < salt ensures HeldEarlier(more, id, Candidate(digest, id, s)) {
          HeldLonger(plan, more, id, Candidate(digest, id, s));
        }
        assert IsLeast(digest, more, id, salt);
    }
  }

  /** A plan under construction in which everybody so far got the least salt. */
  ghost predicate AllLeast(digest: Digest, plan: map<Identity, string>) {
    forall id :: id in plan ==> GetsLeast(digest, plan, id)
  }

  lemma OneMoreLeast(digest: Digest, plan: map<Identity, string>, id: Identity, w: string)
    requires AllLeast(digest, plan) && id !in plan && GetsLeast(digest, plan[id := w], id)
    ensures AllLeast(digest, plan[id := w])
  {
    var more := plan[id := w];
    hide GetsLeast;
    forall k | k in more ensures GetsLeast(digest, more, k) {
      if k != id {
        LeastLonger(digest, plan, more, k);
      }
    }
  }

  /** Someone of the type cannot be served, all salts being held by others. */
  ghost predicate SomeoneIsExhausted(digest: Digest, ids: set<Identity>, dataType: string) {
    exists id, plan: map<Identity, string> ::
      id in ids && id.dataType == dataType && plan.Keys <= ids && AllLeast(digest, plan) && IsExhausted(digest, plan, id)
  }

  lemma {:induction false} AllocateLeast(digest: Digest, ids: seq<Identity>, plan: map<Identity, string>)
    requires AllLeast(digest, plan) && AllBefore(plan, ids)
    requires forall i, j :: 0 <= i < j < |ids| ==> ids[i] != ids[j] && IdentityLess(ids[i], ids[j])
    ensures match Allocate(digest, ids, plan)
      case Ok(full) => AllLeast(digest, full)
      case Err(NamespaceExhausted(t)) => SomeoneIsExhausted(digest, plan.Keys + AsSet(ids), t)
    decreases |ids|
  {
    hide AllLeast, IdentityLess, IsExhausted, GetsLeast, Candidate, Taken, FirstFree, AttemptCap;
    if ids != [] {
      var id := ids[0];
      assert id in ids;
      if id in plan {
        Irreflexive(id);
      }
      NextGetsLeast(digest, plan, id);
      match FirstFree(digest, id, Taken(plan, id.dataType), 0) {
        case None =>
          assert id in AsSet(ids);
        case Some(salt) =>
          var more := plan[id := Candidate(digest, id, salt)];
          OneMoreLeast(digest, plan, id, Candidate(digest, id, salt));
          forall other, k | other in more && k in ids[1..] ensures IdentityLess(other, k) {
            var j :| 0 <= j < |ids[1..]| && ids[1..][j] == k;
            assert k == ids[j + 1] && k in ids;
          }
          AllocateLeast(digest, ids[1..], more);
          assert more.Keys + AsSet(ids[1..]) == plan.Keys + AsSet(ids);
      }
    }
  }

  ghost function OfType(ids: set<Identity>, t: string): set<Identity> {
    set id | id in ids && id.dataType == t
  }

  lemma OneMoreOfType(ids: set<Identity>, x: Identity, t: string)
    requires x !in ids
    ensures |OfType(ids + {x}, t)| == |OfType(ids, t)| + if x.dataType == t then 1 else 0
  {
    assert OfType(ids + {x}, t) == OfType(ids, t) + if x.dataType == t then {x} else {};
  }

  lemma {:induction false} CountOfIsCardinality(ids: seq<Identity>, t: string)
    requires forall i, j :: 0 <= i < j < |ids| ==> ids[i] != ids[j]
    ensures CountOf(ids, t) == |OfType(AsSet(ids), t)|
    decreases |ids|
  {
    if ids == [] {
      assert OfType(AsSet(ids), t) == {};
    } else {
      var n := |ids| - 1;
      CountOfIsCardinality(ids[..n], t);
      assert ids == ids[..n] + [ids[n]];
      assert AsSet(ids) == AsSet(ids[..n]) + {ids[n]};
      hide OfType;
      OneMoreOfType(AsSet(ids[..n]), ids[n], t);
    }
  }

  /** Every identity is rendered with the least salt whose rendering no earlier identity of its type
      holds; a refusal means more identities than numbers or addresses, or one with no salt left. */
  lemma PlanIsLeast(digest: Digest, identities: seq<Identity>)
    ensures match Plan(digest, identities)
      case Ok(plan) => forall id :: id in identities ==> GetsLeast(digest, plan, id)
      case Err(NamespaceExhausted(t)) =>
        || (t == "phone" && |OfType(AsSet(identities), t)| > 10000)
        || (t == "ip_address" && |OfType(AsSet(identities), t)| > 253)
        || SomeoneIsExhausted(digest, AsSet(identities), t)
  {
    var ids := SortedUnique(identities);
    assert AsSet(ids) == AsSet(identities);
    CountOfIsCardinality(ids, "phone");
    CountOfIsCardinality(ids, "ip_address");
    hide IdentityLess, GetsLeast, CountOf, SomeoneIsExhausted;
    var nobody: map<Identity, string> := map[];
    AllocateLeast(digest, ids, nobody);
    assert nobody.Keys + AsSet(ids) == AsSet(identities);
    if Plan(digest, identities).Ok? {
      PlanIsInjective(digest, identities);
      forall id | id in identities ensures GetsLeast(digest, Plan(digest, identities).value, id) {
        assert id in AsSet(identities);
      }
    }
  }

  /** Neither the order nor the repetition of identities matters. */
  lemma PlanDependsOnSet(digest: Digest, xs: seq<Identity>, ys: seq<Identity>)
    requires AsSet(xs) == AsSet(ys)
    ensures Plan(digest, xs) == Plan(digest, ys)
  {
    SortedSetUnique(SortedUnique(xs), SortedUnique(ys), AsSet(xs));
  }

  // ---------- The capacity check refuses only hopeless policies ----------

  ghost function Image(f: nat -> string, n: nat): set<string> {
    if n == 0 then {} else Image(f, n - 1) + {f(n - 1)}
  }

  lemma ImageSize(f: nat -> string, n: nat)
    ensures |Image(f, n)| <= n
    ensures forall k: nat :: k < n ==> f(k) in Image(f, n)
  {
  }

  lemma SubsetSize<T>(a: set<T>, b: set<T>)
    requires a <= b
    ensures |a| <= |b|
  {
    if a != {} {
      var x :| x in a;
      SubsetSize(a - {x}, b - {x});
    }
  }

  lemma {:induction false} InjectiveSize(plan: map<Identity, string>, ids: set<Identity>)
    requires ids <= plan.Keys
    requires forall a, b :: a in ids && b in ids && a != b ==> plan[a] != plan[b]
    ensures |set id | id in ids :: plan[id]| == |ids|
  {
    if ids != {} {
      var x :| x in ids;
      var rest := ids - {x};
      InjectiveSize(plan, rest);
      assert (set id | id in ids :: plan[id]) == (set id | id in rest :: plan[id]) + {plan[x]};
    } else {
      assert (set id | id in ids :: plan[id]) == {};
    }
  }

  lemma BoundedDomain(digest: Digest, plan: map<Identity, string>, dataType: string, f: nat -> string, n: nat)
    requires 0 < n && FromDigest(digest, plan) && DistinctPerType(plan)
    requires forall d :: Render(dataType, d) == f(HexValue(Prefix(d, 8)))
    requires forall k: nat :: f(k) == f(k % n)
    ensures |set id | id in plan && id.dataType == dataType| <= n
  {
    hide Render, HexValue;
    var ids := set id | id in plan && id.dataType == dataType;
    ImageSize(f, n);
    forall id | id in ids ensures plan[id] in Image(f, n) {
      var s: nat :| plan[id] == Candidate(digest, id, s);
      var number := HexValue(Prefix(digest(id, s), 8));
      assert plan[id] == f(number) == f(number % n);
    }
    InjectiveSize(plan, ids);
    SubsetSize(set id | id in ids :: plan[id], Image(f, n));
  }

  lemma RenderBounded()
    ensures forall d :: Render("phone", d) == PhoneNumber(HexValue(Prefix(d, 8)))
    ensures forall d :: Render("ip_address", d) == Address(HexValue(Prefix(d, 8)))
    ensures forall k: nat :: PhoneNumber(k) == PhoneNumber(k % 10000)
    ensures forall k: nat :: Address(k) == Address(k % 253)
  {
    hide HexValue, Prefix, FourDigits, Decimal;
  }

  /** No assignment of distinct phone numbers or addresses exists beyond the capacities. */
  lemma CapacityIsSharp(digest: Digest, plan: map<Identity, string>, dataType: string)
    requires dataType in DOMAIN_CAPACITY && DistinctPerType(plan) && FromDigest(digest, plan)
    ensures |set id | id in plan && id.dataType == dataType| <= DOMAIN_CAPACITY[dataType]
  {
    hide FromDigest, DistinctPerType, HexValue, Prefix, Render, PhoneNumber, Address;
    RenderBounded();
    if dataType == "phone" {
      BoundedDomain(digest, plan, "phone", PhoneNumber, 10000);
    } else {
      BoundedDomain(digest, plan, "ip_address", Address, 253);
    }
  }

  // ---------- Plans that cannot fail ----------

  ghost predicate OnePerType(ids: seq<Identity>) {
    forall a, b :: a in ids && b in ids && a.dataType == b.dataType ==> a == b
  }

  lemma {:induction false} CountIsSmall(ids: seq<Identity>, t: string)
    requires OnePerType(ids) && forall i, j :: 0 <= i < j < |ids| ==> ids[i] != ids[j]
    ensures CountOf(ids, t) <= 1
    ensures (forall id :: id in ids ==> id.dataType != t) ==> CountOf(ids, t) == 0
    decreases |ids|
  {
    if ids != [] {
      var n := |ids| - 1;
      assert ids[n] in ids && forall id :: id in ids[..n] ==> id in ids;
      assert forall id :: id in ids[..n] ==> id != ids[n];
      CountIsSmall(ids[..n], t);
    }
  }

  lemma {:induction false} NothingCollides(digest: Digest, ids: seq<Identity>, plan: map<Identity, string>)
    requires OnePerType(ids) && forall i, j :: 0 <= i < j < |ids| ==> ids[i] != ids[j]
    requires forall id, other :: id in ids && other in plan ==> other.dataType != id.dataType
    ensures Allocate(digest, ids, plan).Ok?
    decreases |ids|
  {
    hide Candidate;
    if ids != [] {
      var id := ids[0];
      assert id in ids && Taken(plan, id.dataType) == {};
      assert forall other :: other in ids[1..] ==> other in ids && other != id;
      NothingCollides(digest, ids[1..], plan[id := Candidate(digest, id, 0)]);
    }
  }

  /** With one identity per data type the plan succeeds, whatever the digest. */
  lemma OnePerTypeFits(digest: Digest, identities: seq<Identity>)
    requires OnePerType(identities)
    ensures Plan(digest, identities).Ok?
  {
    var ids := SortedUnique(identities);
    assert forall id :: id in ids ==> id in AsSet(identities);
    CountIsSmall(ids, "phone");
    CountIsSmall(ids, "ip_address");
    NothingCollides(digest, ids, map[]);
  }
}
