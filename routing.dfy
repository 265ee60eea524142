/** Recipient routing in `TrashmailHandler.handle_DATA`: every recipient is
    lower-cased, checked against the address pattern
    `[^@\s]+@[^@\s]+\.[a-zA-Z0-9]+$`, its domain is cut out of it and matched
    against the configured domain rules, and unknown domains are discarded
    when the discard setting is on. */
module Routing {
  import opened Common

  // ---------------------------------------------------------------------
  // Characters

  /** The characters `\s` matches in a Python `str` pattern: those for which
      `str.isspace()` holds. */
  predicate IsSpace(c: char) {
    c == ' ' || ('\t' <= c <= '\r') || ('\U{1c}' <= c <= '\U{1f}')
    || c == '\U{85}' || c == '\U{a0}' || c == '\U{1680}'
    || ('\U{2000}' <= c <= '\U{200a}') || c == '\U{2028}' || c == '\U{2029}'
    || c == '\U{202f}' || c == '\U{205f}' || c == '\U{3000}'
  }

  /** The class `[a-zA-Z0-9]`. */
  predicate IsAlnum(c: char) {
    ('a' <= c <= 'z') || ('A' <= c <= 'Z') || ('0' <= c <= '9')
  }

  /** The class `[^@\s]`. */
  predicate IsAddressChar(c: char) {
    c != '@' && !IsSpace(c)
  }

  predicate AllAddressChars(s: string) {
    forall i | 0 <= i < |s| :: IsAddressChar(s[i])
  }

  predicate AllAlnum(s: string) {
    forall i | 0 <= i < |s| :: IsAlnum(s[i])
  }

  // ---------------------------------------------------------------------
  // Case normalisation (`em.lower()`)

  function LowerChar(c: char): char {
    if 'A' <= c <= 'Z' then (c as int + 32) as char else c
  }

  function Lower(s: string): string {
    seq(|s|, i requires 0 <= i < |s| => LowerChar(s[i]))
  }

  /** Two recipients that differ only in the case of their letters. */
  predicate SameIgnoringCase(a: string, b: string) {
    |a| == |b| && forall i | 0 <= i < |a| :: LowerChar(a[i]) == LowerChar(b[i])
  }

  lemma LowerIdempotent(s: string)
    ensures Lower(Lower(s)) == Lower(s)
    ensures forall i | 0 <= i < |Lower(s)| :: !('A' <= Lower(s)[i] <= 'Z')
  {
  }

  lemma LowerOfSameIgnoringCase(a: string, b: string)
    requires SameIgnoringCase(a, b)
    ensures Lower(a) == Lower(b)
  {
  }

  // ---------------------------------------------------------------------
  // The address pattern

  /** What `re.match(r"[^@\s]+@[^@\s]+\.[a-zA-Z0-9]+", s)` followed by an end
      of string accepts: a run of address characters, an `@`, a run of
      address characters, a `.`, and a run of alphanumerics up to the end. */
  ghost predicate PatternMatch(s: string) {
    exists at, dot | 0 < at && at + 1 < dot && dot + 1 < |s| ::
      && s[at] == '@'
      && s[dot] == '.'
      && AllAddressChars(s[..at])
      && AllAddressChars(s[at + 1..dot])
      && AllAlnum(s[dot + 1..])
  }

  /** The domain part ends in a top-level label: its last `.` has a
      non-empty prefix and a non-empty alphanumeric suffix. */
  predicate HasTopLevelLabel(domain: string) {
    '.' in domain &&
    var dot := LastIndexOf(domain, '.');
    0 < dot < |domain| - 1 && AllAlnum(domain[dot + 1..])
  }

  /** The executable reading of the pattern: exactly one `@`, a non-empty
      whitespace-free local part, and a whitespace-free domain part that
      ends in a top-level label. */
  predicate IsAddress(s: string) {
    '@' in s &&
    var at := IndexOf(s, '@');
    var local, domain := s[..at], s[at + 1..];
    local != [] && AllAddressChars(local) && AllAddressChars(domain)
    && HasTopLevelLabel(domain)
  }

  /** An address has exactly one `@`. */
  lemma AddressHasOneAt(s: string)
    requires IsAddress(s)
    ensures forall i | 0 <= i < |s| && s[i] == '@' :: i == IndexOf(s, '@')
  {
    var at := IndexOf(s, '@');
    assert forall i | at < i < |s| :: s[i] == s[at + 1..][i - at - 1];
  }

  lemma AddressMatchesPattern(s: string)
    requires IsAddress(s)
    ensures PatternMatch(s)
  {
    var at := IndexOf(s, '@');
    var domain := s[at + 1..];
    var k := LastIndexOf(domain, '.');
    var dot := at + 1 + k;
    assert s[..at] != [] && AllAddressChars(s[..at]);
    assert s[at + 1..dot] == domain[..k];
    assert AllAddressChars(s[at + 1..dot]);
    assert s[dot + 1..] == domain[k + 1..];
    assert AllAlnum(s[dot + 1..]);
    assert s[dot] == domain[k] == '.';
    assert 0 < at && at + 1 < dot && dot + 1 < |s|;
  }

  lemma PatternWitnessIsAddress(s: string, at: nat, dot: nat)
    requires 0 < at && at + 1 < dot && dot + 1 < |s|
    requires s[at] == '@' && s[dot] == '.'
    requires AllAddressChars(s[..at]) && AllAddressChars(s[at + 1..dot])
    requires AllAlnum(s[dot + 1..])
    ensures IsAddress(s)
  {
    assert forall j | 0 <= j < at :: s[j] == s[..at][j];
    IndexOfIs(s, '@', at);
    var domain := s[at + 1..];
    var k := dot - at - 1;
    TopLevelLabelOfSplit(domain, k);
    assert AllAddressChars(domain) by {
      forall j | 0 <= j < |domain| ensures IsAddressChar(domain[j]) {
        if j < k {
          assert domain[j] == s[at + 1..dot][j];
        } else if j > k {
          assert domain[j] == s[dot + 1..][j - k - 1];
        }
      }
    }
  }

  lemma TopLevelLabelOfSplit(domain: string, k: nat)
    requires 0 < k < |domain| - 1 && domain[k] == '.'
    requires AllAlnum(domain[k + 1..])
    ensures HasTopLevelLabel(domain)
  {
    forall j | k < j < |domain| ensures domain[j] != '.' {
      assert domain[j] == domain[k + 1..][j - k - 1];
    }
    LastIndexOfIs(domain, '.', k);
  }

  /** The executable reading and the pattern accept the same strings. */
  lemma IsAddressIffPattern(s: string)
    ensures IsAddress(s) <==> PatternMatch(s)
  {
    if IsAddress(s) {
      AddressMatchesPattern(s);
    }
    if PatternMatch(s) {
      var at, dot :| 0 < at && at + 1 < dot && dot + 1 < |s|
        && s[at] == '@' && s[dot] == '.'
        && AllAddressChars(s[..at]) && AllAddressChars(s[at + 1..dot])
        && AllAlnum(s[dot + 1..]);
      PatternWitnessIsAddress(s, at, dot);
    }
  }

  /** `re.match(...)` with the trailing `$`: Python's `$` also matches just
      before one final newline, so `a@b.c\n` passes too. */
  predicate MatchesRecipientPattern(em: string) {
    IsAddress(em) || (|em| > 0 && em[|em| - 1] == '\n' && IsAddress(em[..|em| - 1]))
  }

  /** `em.split('@')[1]`: the text after the first `@` up to the next `@`. */
  function DomainOf(em: string): (d: string)
    requires '@' in em
  {
    var rest := em[IndexOf(em, '@') + 1..];
    if '@' in rest then rest[..IndexOf(rest, '@')] else rest
  }

  /** The domain of a recipient that passed the pattern is everything after
      its `@`; when the `$` let a final newline through, that newline is
      part of the domain. */
  lemma DomainOfAddress(em: string)
    requires IsAddress(em)
    ensures DomainOf(em) == em[IndexOf(em, '@') + 1..]
    ensures AllAddressChars(DomainOf(em)) && HasTopLevelLabel(DomainOf(em))
  {
    var rest := em[IndexOf(em, '@') + 1..];
    assert forall j | 0 <= j < |rest| :: IsAddressChar(rest[j]);
  }

  lemma DomainOfNewlineAddress(em: string)
    requires IsAddress(em)
    ensures '@' in em + "\n"
    ensures DomainOf(em + "\n") == DomainOf(em) + "\n"
  {
    AddressHasOneAt(em);
    var s := em + "\n";
    var at := IndexOf(em, '@');
    var tail := em[at + 1..];
    assert '@' !in tail by {
      forall j | 0 <= j < |tail| ensures tail[j] != '@' {
        assert tail[j] == em[at + 1 + j];
      }
    }
    assert DomainOf(em) == tail;
    assert forall j | 0 <= j < at :: s[j] == em[j];
    IndexOfIs(s, '@', at);
    var rest := s[at + 1..];
    assert rest == tail + "\n";
    assert '@' !in rest by {
      forall j | 0 <= j < |rest| ensures rest[j] != '@' {
        if j < |tail| { assert rest[j] == tail[j]; }
      }
    }
  }

  // ---------------------------------------------------------------------
  // Domain rules

  /** `x.replace('*', '')` */
  function RemoveStars(rule: string): (r: string)
    ensures '*' !in r
    ensures |r| <= |rule|
    ensures '*' !in rule ==> r == rule
  {
    if rule == [] then []
    else (if rule[0] == '*' then [] else [rule[0]]) + RemoveStars(rule[1..])
  }

  /** `replace('*', '')` works character by character: the rule's pieces
      lose their stars separately, and what is kept stays in order. */
  lemma {:induction false} RemoveStarsConcat(a: string, b: string)
    ensures RemoveStars(a + b) == RemoveStars(a) + RemoveStars(b)
    decreases |a|
  {
    if a == [] {
      assert a + b == b;
    } else {
      assert (a + b)[0] == a[0];
      assert (a + b)[1..] == a[1..] + b;
      RemoveStarsConcat(a[1..], b);
    }
  }

  /** One character: a star is dropped, any other character kept. */
  lemma RemoveStarsChar(c: char)
    ensures RemoveStars([c]) == if c == '*' then [] else [c]
  {
    assert [c][1..] == [];
  }

  /** One iteration of the rule loop: a rule with a `*` matches when the
      domain ends with the rule minus its stars; failing that, any rule
      matches a domain equal to it. */
  predicate RuleMatches(rule: string, domain: string) {
    ('*' in rule && EndsWith(domain, RemoveStars(rule))) || domain == rule
  }

  /** `found` after the rule loop: some configured rule matches. */
  predicate KnownDomain(domains: seq<string>, domain: string) {
    exists i | 0 <= i < |domains| :: RuleMatches(domains[i], domain)
  }

  /** The rule loop of the handler, which sets `found` on every match and
      never leaves early. */
  method FindDomain(domains: seq<string>, domain: string) returns (found: bool)
    ensures found <==> KnownDomain(domains, domain)
  {
    found := false;
    for i := 0 to |domains|
      invariant found <==> exists j | 0 <= j < i :: RuleMatches(domains[j], domain)
    {
      var x := domains[i];
      if '*' in x && EndsWith(domain, RemoveStars(x)) {
        found := true;
      } else if domain == x {
        found := true;
      }
    }
  }

  /** A rule without a star matches exactly the domain equal to it. */
  lemma ExactRule(rule: string, domain: string)
    requires '*' !in rule
    ensures RuleMatches(rule, domain) <==> domain == rule
  {
  }

  /** A wildcard rule `*` + suffix matches exactly the domains ending with
      the suffix; the rule itself is one of them, so the `elif` adds
      nothing. */
  lemma {:induction false} WildcardRule(suffix: string, domain: string)
    requires '*' !in suffix
    ensures RuleMatches("*" + suffix, domain) <==> EndsWith(domain, suffix)
  {
    var rule := "*" + suffix;
    assert rule[1..] == suffix;
    assert RemoveStars(rule) == RemoveStars(suffix) == suffix;
    assert rule[0] == '*';
    assert '*' in rule;
    if domain == rule {
      assert domain[|domain| - |suffix|..] == suffix;
    }
  }

  /** Any rule holding a star, wherever the stars stand, matches a domain
      other than the rule itself exactly when the domain ends with the rule
      minus its stars. */
  lemma StarRule(rule: string, domain: string)
    requires '*' in rule && domain != rule
    ensures RuleMatches(rule, domain) <==> EndsWith(domain, RemoveStars(rule))
  {
  }

  /** A star rule covers every domain ending in the rule without its star,
      whatever the domain holds. */
  lemma WildcardCovers(suffix: string, domain: string)
    requires '*' !in suffix && EndsWith(domain, suffix)
    ensures RuleMatches("*" + suffix, domain)
  {
    var rule := "*" + suffix;
    assert rule[1..] == suffix;
    assert rule[0] == '*';
  }

  /** `*.d` covers every subdomain of `d` but never `d` itself. */
  lemma WildcardExcludesBareDomain(d: string, sub: string)
    requires '*' !in d && sub != []
    ensures RuleMatches("*." + d, sub + "." + d)
    ensures !RuleMatches("*." + d, d)
  {
    assert "*." + d == "*" + ("." + d);
    assert '*' !in "." + d;
    var full := sub + "." + d;
    assert full == sub + ("." + d);
    assert full[|full| - |"." + d|..] == "." + d;
    WildcardCovers("." + d, full);
    WildcardRule("." + d, d);
  }

  /** The wildcard `*.example.com` covers the subdomain `mail.example.com`. */
  lemma ExampleWildcardSubdomain()
    ensures RuleMatches("*.example.com", "mail.example.com")
  {
    var suffix, full := ".example.com", "mail.example.com";
    assert '*' !in suffix;
    assert full[4..] == suffix;
    WildcardCovers(suffix, full);
    assert "*" + suffix == "*.example.com";
  }

  /** The wildcard `*.example.com` covers `a.b.example.com`, two levels down. */
  lemma ExampleWildcardNestedSubdomain()
    ensures RuleMatches("*.example.com", "a.b.example.com")
  {
    var suffix, full := ".example.com", "a.b.example.com";
    assert '*' !in suffix;
    assert full[3..] == suffix;
    WildcardCovers(suffix, full);
    assert "*" + suffix == "*.example.com";
  }

  /** The wildcard `*.example.com` does not cover `example.com` itself. */
  lemma ExampleWildcardBareDomain()
    ensures !RuleMatches("*.example.com", "example.com")
  {
    var d := "example.com";
    assert '*' !in d;
    WildcardExcludesBareDomain(d, "mail");
    assert "*." + d == "*.example.com";
  }

  // ---------------------------------------------------------------------
  // The per-recipient verdict

  datatype Verdict =
    | Invalid                                       // fails the address pattern
    | Discarded(domain: string)                     // unknown domain, discard on
    | Deliver(mailbox: string, domain: string)      // stored under ../data/<mailbox>

  function Route(rcpt: string, domains: seq<string>, discardUnknown: bool): Verdict {
    var em := Lower(rcpt);
    if !MatchesRecipientPattern(em) then Invalid
    else
      var domain := DomainOf(em);
      if discardUnknown && !KnownDomain(domains, domain) then Discarded(domain)
      else Deliver(em, domain)
  }

  /** A recipient is delivered iff its lower-cased form passes the pattern
      and, with discarding on, its domain is known; it is then delivered to
      the mailbox named by its lower-cased form. */
  lemma RouteDelivers(rcpt: string, domains: seq<string>, discardUnknown: bool)
    ensures Route(rcpt, domains, discardUnknown).Deliver? <==>
      MatchesRecipientPattern(Lower(rcpt))
      && (!discardUnknown || KnownDomain(domains, DomainOf(Lower(rcpt))))
    ensures Route(rcpt, domains, discardUnknown).Deliver? ==>
      Route(rcpt, domains, discardUnknown).mailbox == Lower(rcpt)
  {
  }

  /** With discarding off, every recipient that passes the pattern is
      delivered, whatever the rules say. */
  lemma NoDiscardDeliversAllValid(rcpt: string, domains: seq<string>)
    requires MatchesRecipientPattern(Lower(rcpt))
    ensures Route(rcpt, domains, false) == Deliver(Lower(rcpt), DomainOf(Lower(rcpt)))
  {
  }

  /** Recipients that differ only in letter case get the same verdict, the
      same domain and the same mailbox. */
  lemma RouteIgnoresCase(a: string, b: string, domains: seq<string>, discardUnknown: bool)
    requires SameIgnoringCase(a, b)
    ensures Route(a, domains, discardUnknown) == Route(b, domains, discardUnknown)
  {
    LowerOfSameIgnoringCase(a, b);
  }

  /** Routing an already lower-cased recipient changes nothing. */
  lemma RouteOfLower(rcpt: string, domains: seq<string>, discardUnknown: bool)
    ensures Route(Lower(rcpt), domains, discardUnknown) == Route(rcpt, domains, discardUnknown)
  {
    LowerIdempotent(rcpt);
  }

  /** `not-an-address` is rejected, whatever the rules and the discard
      setting. */
  lemma NotAnAddressIsInvalid(domains: seq<string>, discardUnknown: bool)
    ensures Route("not-an-address", domains, discardUnknown) == Invalid
  {
    var em := Lower("not-an-address");
    assert em == "not-an-address";
    assert '@' !in em;
  }
}
