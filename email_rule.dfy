/** The e-mail rule of the register and login handlers: the regular
    expression of routes/user-routes.js:30-31 (repeated at 89-90), written
    out as predicates. The `...Pattern` predicates follow the expression's
    shape (a concatenation is an existential split, a repetition is a join
    of pieces); `IsValidEmail` is the recogniser the handlers use, and
    `EmailAgreement` proves the two the same. */
module EmailRule {
  import opened Wrappers
  import opened JsString

  /** JavaScript's `\s`: the WhiteSpace and LineTerminator code units. */
  predicate IsJsSpace(c: char)
  {
    var n := c as int;
    n == 0x09 || n == 0x0A || n == 0x0B || n == 0x0C || n == 0x0D || n == 0x20 ||
    n == 0xA0 || n == 0x1680 || (0x2000 <= n <= 0x200A) || n == 0x2028 || n == 0x2029 ||
    n == 0x202F || n == 0x205F || n == 0x3000 || n == 0xFEFF
  }

  /** The code units JavaScript's `.` does not match. */
  predicate IsLineTerminator(c: char)
  {
    var n := c as int;
    n == 0x0A || n == 0x0D || n == 0x2028 || n == 0x2029
  }

  /** `[^<>()[\]\\.,;:\s@"]` */
  predicate IsAtomChar(c: char)
  {
    c !in "<>()[]\\.,;:@\"" && !IsJsSpace(c)
  }

  predicate IsDigit(c: char) { '0' <= c <= '9' }

  predicate IsAsciiLetter(c: char) { 'a' <= c <= 'z' || 'A' <= c <= 'Z' }

  /** `[a-zA-Z\-0-9]` */
  predicate IsLabelChar(c: char) { IsAsciiLetter(c) || IsDigit(c) || c == '-' }

  /** `[^<>()[\]\\.,;:\s@"]+` */
  predicate IsAtom(s: string)
  {
    |s| >= 1 && forall k :: 0 <= k < |s| ==> IsAtomChar(s[k])
  }

  /** `".+"` */
  predicate IsQuoted(s: string)
  {
    |s| >= 3 && s[0] == '"' && s[|s| - 1] == '"' &&
    forall k :: 1 <= k < |s| - 1 ==> !IsLineTerminator(s[k])
  }

  /** `[0-9]{1,3}` */
  predicate IsOctet(s: string)
  {
    1 <= |s| <= 3 && forall k :: 0 <= k < |s| ==> IsDigit(s[k])
  }

  /** `[a-zA-Z\-0-9]+` */
  predicate IsLabel(s: string)
  {
    |s| >= 1 && forall k :: 0 <= k < |s| ==> IsLabelChar(s[k])
  }

  /** `[a-zA-Z]{2,}` */
  predicate IsTld(s: string)
  {
    |s| >= 2 && forall k :: 0 <= k < |s| ==> IsAsciiLetter(s[k])
  }

  /** The pieces of `atom(\.atom)*` between its dots. */
  predicate AreAtoms(parts: seq<string>)
  {
    |parts| >= 1 && forall k :: 0 <= k < |parts| ==> IsAtom(parts[k])
  }

  /** The pieces of `d\.d\.d\.d` between its dots. */
  predicate AreOctets(parts: seq<string>)
  {
    |parts| == 4 && forall k :: 0 <= k < 4 ==> IsOctet(parts[k])
  }

  /** The pieces of `(label\.)+tld` between its dots. */
  predicate AreHostParts(parts: seq<string>)
  {
    |parts| >= 2 && (forall k :: 0 <= k < |parts| - 1 ==> IsLabel(parts[k])) && IsTld(parts[|parts| - 1])
  }

  // ---- the expression's shape ----

  /** `atom(\.atom)*`: atoms joined by dots. */
  ghost predicate DotAtomPattern(s: string)
  {
    exists parts: seq<string> :: AreAtoms(parts) && s == Join(parts, '.')
  }

  ghost predicate LocalPartPattern(s: string)
  {
    DotAtomPattern(s) || IsQuoted(s)
  }

  /** `\[d\.d\.d\.d\]` with `d` an octet. */
  ghost predicate QuadPattern(d: string)
  {
    |d| >= 2 && d[0] == '[' && d[|d| - 1] == ']' &&
    exists parts: seq<string> :: AreOctets(parts) && d[1..|d| - 1] == Join(parts, '.')
  }

  /** `(label\.)+tld`: one or more labels and then a top-level name, joined by dots. */
  ghost predicate HostnamePattern(d: string)
  {
    exists parts: seq<string> :: AreHostParts(parts) && d == Join(parts, '.')
  }

  ghost predicate DomainPattern(d: string)
  {
    QuadPattern(d) || HostnamePattern(d)
  }

  /** `^(local)@(domain)$`: some `@` splits the whole string into the two parts. */
  ghost predicate EmailPattern(s: string)
  {
    exists i :: 0 <= i < |s| && s[i] == '@' && LocalPartPattern(s[..i]) && DomainPattern(s[i + 1..])
  }

  // ---- the recogniser ----

  function IsLocalPart(s: string): bool
  {
    AreAtoms(Split(s, '.')) || IsQuoted(s)
  }

  function IsQuad(d: string): bool
  {
    |d| >= 2 && d[0] == '[' && d[|d| - 1] == ']' && AreOctets(Split(d[1..|d| - 1], '.'))
  }

  function IsDomain(d: string): bool
  {
    IsQuad(d) || AreHostParts(Split(d, '.'))
  }

  /** `emailReg.test(s)`. No domain holds an `@`, so the `@` that splits a
      match is the last one. */
  function IsValidEmail(s: string): (r: bool)
    ensures r ==> exists i :: 0 < i < |s| - 1 && s[i] == '@' && '@' !in s[i + 1..]
  {
    match LastIndexOf(s, '@')
    case None => false
    case Some(i) =>
      NonEmptyParts(s[..i], s[i + 1..]);
      IsLocalPart(s[..i]) && IsDomain(s[i + 1..])
  }

  /** Neither an accepted local part nor an accepted domain is empty. */
  lemma NonEmptyParts(l: string, d: string)
    ensures IsLocalPart(l) ==> l != ""
    ensures IsDomain(d) ==> d != ""
  {
    if l == "" {
      assert Split(l, '.') == [""];
      assert !IsAtom(Split(l, '.')[0]);
    }
    if d == "" {
      assert Split(d, '.') == [""];
    }
  }

  // ---- agreement ----

  lemma AtomsAvoidDot(parts: seq<string>)
    requires AreAtoms(parts)
    ensures forall k :: 0 <= k < |parts| ==> '.' !in parts[k]
  {
  }

  /** Every local part the recogniser accepts matches the expression's local part. */
  lemma LocalPartSound(l: string)
    requires IsLocalPart(l)
    ensures LocalPartPattern(l)
  {
    if AreAtoms(Split(l, '.')) {
      JoinSplit(l, '.');
    }
  }

  /** Every local part of the expression is accepted by the recogniser. */
  lemma LocalPartComplete(l: string)
    requires LocalPartPattern(l)
    ensures IsLocalPart(l)
  {
    if DotAtomPattern(l) {
      var parts :| AreAtoms(parts) && l == Join(parts, '.');
      AtomsAvoidDot(parts);
      SplitJoin(parts, '.');
    }
  }

  /** Every domain the recogniser accepts matches the expression's domain. */
  lemma DomainSound(d: string)
    requires IsDomain(d)
    ensures DomainPattern(d)
  {
    if IsQuad(d) {
      JoinSplit(d[1..|d| - 1], '.');
    } else {
      JoinSplit(d, '.');
    }
  }

  /** Every domain of the expression is accepted by the recogniser. */
  lemma DomainComplete(d: string)
    requires DomainPattern(d)
    ensures IsDomain(d)
  {
    if QuadPattern(d) {
      var parts :| AreOctets(parts) && d[1..|d| - 1] == Join(parts, '.');
      SplitJoin(parts, '.');
    } else {
      var parts :| AreHostParts(parts) && d == Join(parts, '.');
      SplitJoin(parts, '.');
    }
  }

  /** No domain, of either form, holds an `@`. */
  lemma DomainAvoidsAt(d: string)
    requires IsDomain(d)
    ensures '@' !in d
  {
    if IsQuad(d) {
      var inner := d[1..|d| - 1];
      var parts := Split(inner, '.');
      JoinSplit(inner, '.');
      forall k | 0 <= k < 4 ensures '@' !in parts[k] {
        assert IsOctet(parts[k]);
      }
      JoinAvoids(parts, '.', '@');
      assert d == [d[0]] + inner + [d[|d| - 1]];
    } else {
      var parts := Split(d, '.');
      JoinSplit(d, '.');
      forall k | 0 <= k < |parts| ensures '@' !in parts[k] {
        if k < |parts| - 1 {
          assert IsLabel(parts[k]);
        } else {
          assert IsTld(parts[k]);
        }
      }
      JoinAvoids(parts, '.', '@');
    }
  }

  /** Every string the recogniser accepts matches the regular expression. */
  lemma EmailSound(s: string)
    requires IsValidEmail(s)
    ensures EmailPattern(s)
  {
    var i := LastIndexOf(s, '@').value;
    LocalPartSound(s[..i]);
    DomainSound(s[i + 1..]);
    assert 0 <= i < |s| && s[i] == '@' && LocalPartPattern(s[..i]) && DomainPattern(s[i + 1..]);
  }

  /** Every string the regular expression matches is accepted by the recogniser. */
  lemma EmailComplete(s: string)
    requires EmailPattern(s)
    ensures IsValidEmail(s)
  {
    var i :| 0 <= i < |s| && s[i] == '@' && LocalPartPattern(s[..i]) && DomainPattern(s[i + 1..]);
    LocalPartComplete(s[..i]);
    DomainComplete(s[i + 1..]);
    DomainAvoidsAt(s[i + 1..]);
    LastIndexOfUnique(s, '@', i);
  }

  /** The recogniser accepts exactly the strings the regular expression matches. */
  lemma EmailAgreement(s: string)
    ensures IsValidEmail(s) <==> EmailPattern(s)
  {
    if IsValidEmail(s) {
      EmailSound(s);
    }
    if EmailPattern(s) {
      EmailComplete(s);
    }
  }

  // ---- examples ----

  /** An address made of a local part, an `@` and a domain is accepted. */
  lemma AcceptedAt(s: string, local: string, domain: string)
    requires s == local + "@" + domain && IsLocalPart(local) && IsDomain(domain)
    ensures IsValidEmail(s)
  {
    DomainAvoidsAt(domain);
    assert s[..|local|] == local && s[|local| + 1..] == domain;
    LastIndexOfUnique(s, '@', |local|);
  }

  // The example lemmas below take their strings as parameters pinned by a
  // `requires` rather than as literals: a literal argument makes the
  // verifier unfold the recursive recognisers over every character, which
  // is far more costly than reasoning about the pieces.

  /** "user@example.com" is accepted. */
  lemma AcceptsPlainAddress(user: string, host: string, tld: string)
    requires user == "user" && host == "example" && tld == "com"
    ensures IsValidEmail(user + "@" + host + "." + tld)
  {
    assert IsAtom(user) && IsLabel(host) && IsTld(tld);
    SplitWithoutSeparator(user, '.');
    assert AreAtoms([user]);
    SplitAround(host, '.', tld);
    SplitWithoutSeparator(tld, '.');
    assert AreHostParts([host, tld]);
    assert user + "@" + host + "." + tld == user + "@" + (host + "." + tld);
    AcceptedAt(user + "@" + host + "." + tld, user, host + "." + tld);
  }

  /** Four octets joined by dots, in brackets, form a domain. */
  lemma QuadIsDomain(parts: seq<string>)
    requires AreOctets(parts)
    ensures IsDomain("[" + Join(parts, '.') + "]")
  {
    var domain := "[" + Join(parts, '.') + "]";
    assert domain[1..|domain| - 1] == Join(parts, '.');
    SplitJoin(parts, '.');
  }

  /** "a@[999.999.999.999]" is accepted: the bracketed form bounds the
      digits of each group, not its value. */
  lemma AcceptsOutOfRangeOctets(user: string, octet: string)
    requires user == "a" && octet == "999"
    ensures IsValidEmail(user + "@[" + Join([octet, octet, octet, octet], '.') + "]")
  {
    assert IsOctet(octet);
    QuadIsDomain([octet, octet, octet, octet]);
    assert IsAtom(user);
    SplitWithoutSeparator(user, '.');
    assert AreAtoms([user]);
    var domain := "[" + Join([octet, octet, octet, octet], '.') + "]";
    assert user + "@[" + Join([octet, octet, octet, octet], '.') + "]" == user + "@" + domain;
    AcceptedAt(user + "@" + domain, user, domain);
  }

  /** A string without `@` is refused. */
  lemma RejectsWithoutAt(s: string)
    requires '@' !in s
    ensures !IsValidEmail(s)
  {
  }

  /** "user@example.c" is refused: the last label must have two letters. */
  lemma RejectsOneLetterTld(user: string, host: string, tld: string)
    requires user == "user" && host == "example" && tld == "c"
    ensures !IsValidEmail(user + "@" + host + "." + tld)
  {
    var s := user + "@" + host + "." + tld;
    var domain := host + "." + tld;
    assert s == user + "@" + domain && s[|user|] == '@';
    assert s[|user| + 1..] == domain && '@' !in domain;
    LastIndexOfUnique(s, '@', |user|);
    SplitAround(host, '.', tld);
    SplitWithoutSeparator(tld, '.');
    assert !IsTld(tld);
  }

  /** "user@localhost" is refused: a host name needs at least one dot. */
  lemma RejectsDotlessHost(user: string, host: string)
    requires user == "user" && host == "localhost"
    ensures !IsValidEmail(user + "@" + host)
  {
    var s := user + "@" + host;
    assert s[|user|] == '@' && s[|user| + 1..] == host && '@' !in host && '.' !in host;
    LastIndexOfUnique(s, '@', |user|);
    SplitWithoutSeparator(host, '.');
  }
}
