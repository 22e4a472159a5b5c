/**
  The syntactic email check of the registration form (`is_valid_email`). It is
  an ad-hoc rule set, not the address grammar of RFC 5322: it looks only at
  where `@` and `.` occur and at the length of the text after the last `.`.
 */
module EmailValidation {
  import opened PyStrings

  /**
    `is_valid_email` as app.py runs it, branch by branch. `split("@")` yields
    as many names as there are `@` plus one; unpacking them into two names
    raises `ValueError` unless there are exactly two, and the handler turns
    that into a rejection.
   */
  predicate IsValidEmail(email: string) {
    if '@' !in email || '.' !in email then false
    else if StartsWith(email, '@') || EndsWith(email, '@')
         || StartsWith(email, '.') || EndsWith(email, '.') then false
    else
      var names := Split(email, '@');
      if |names| != 2 then false
      else
        var localPart := names[0];
        var domain := names[1];
        if '.' !in domain then false
        else
          var halves := RSplitOnce(domain, '.');
          if |halves| != 2 then false
          else
            var domainName := halves[0];
            var extension := halves[1];
            !(|localPart| == 0 || |domainName| == 0 || |extension| < 2 || |extension| > 6)
  }

  /**
    `email` reads `local @ name . ext`: `local` is non-empty and does not
    start with `.`, no part holds an `@`, `name` is non-empty and `ext` is a
    2 to 6 character tail without `.`.
   */
  ghost predicate Shaped(email: string, local: string, name: string, ext: string) {
    && email == local + ['@'] + name + ['.'] + ext
    && |local| > 0 && local[0] != '.'
    && '@' !in local && '@' !in name && '@' !in ext
    && |name| > 0
    && '.' !in ext && 2 <= |ext| <= 6
  }

  /** The closed form of the rule set: the address splits into the three parts of `Shaped`. */
  ghost predicate WellFormed(email: string) {
    exists local, name, ext :: Shaped(email, local, name, ext)
  }

  /** A valid address has exactly one `@`, and its three parts are the ones the check computed. */
  lemma ValidIsShaped(email: string)
    requires IsValidEmail(email)
    ensures Count(email, '@') == 1
    ensures var names := Split(email, '@');
            var halves := RSplitOnce(names[1], '.');
            Shaped(email, names[0], halves[0], halves[1])
  {
    var names := Split(email, '@');
    var halves := RSplitOnce(names[1], '.');
    assert email == names[0] + ['@'] + names[1] by {
      assert names[1..] == [names[1]];
      assert Join(names, '@') == email;
    }
    assert names[1] == halves[0] + ['.'] + halves[1] by {
      assert halves[1..] == [halves[1]];
      assert Join(halves, '.') == names[1];
    }
    assert '@' !in names[0] && '@' !in names[1];
    assert forall k :: 0 <= k < |halves[0]| ==> halves[0][k] == names[1][k];
    assert forall k :: 0 <= k < |halves[1]| ==> halves[1][k] == names[1][|halves[0]| + 1 + k];
    assert email[0] == names[0][0];
  }

  /**
    Once the address is cut at its only `@` and at the last `.` after it,
    the verdict depends only on the part lengths and the first character.
   */
  lemma Verdict(email: string, local: string, name: string, ext: string)
    requires email == local + ['@'] + name + ['.'] + ext
    requires '@' !in local && '@' !in name && '@' !in ext
    requires '.' !in ext && |ext| > 0
    ensures IsValidEmail(email) <==>
              |local| > 0 && local[0] != '.' && |name| > 0 && 2 <= |ext| <= 6
  {
    var domain := name + ['.'] + ext;
    assert email == local + ['@'] + domain;
    assert '@' !in domain by {
      forall k | 0 <= k < |domain| ensures domain[k] != '@' {
        if k < |name| { assert domain[k] == name[k]; }
        else if k > |name| { assert domain[k] == ext[k - |name| - 1]; }
      }
    }
    assert email[|local|] == '@' && email[|local| + 1 + |name|] == '.';
    assert email[|email| - 1] == ext[|ext| - 1];
    assert |local| > 0 ==> email[0] == local[0];
    assert Join([local, domain], '@') == email;
    SplitJoin([local, domain], '@');
    assert domain[|name|] == '.';
    RSplitAtLast(name, '.', ext);
  }

  /** Every address of the closed form passes the check. */
  lemma ShapedIsValid(email: string, local: string, name: string, ext: string)
    requires Shaped(email, local, name, ext)
    ensures IsValidEmail(email)
  {
    Verdict(email, local, name, ext);
  }

  /** The check accepts exactly the addresses of the closed form. */
  lemma ValidIffWellFormed(email: string)
    ensures IsValidEmail(email) <==> WellFormed(email)
  {
    if IsValidEmail(email) {
      ValidIsShaped(email);
      var names := Split(email, '@');
      var halves := RSplitOnce(names[1], '.');
      assert Shaped(email, names[0], halves[0], halves[1]);
    }
    if WellFormed(email) {
      var local, name, ext :| Shaped(email, local, name, ext);
      ShapedIsValid(email, local, name, ext);
    }
  }

  /**
    An address without `@` fails the membership test; one with two or more
    `@` fails the two-name unpacking.
   */
  lemma RejectsUnlessOneAt(email: string)
    requires Count(email, '@') != 1
    ensures !IsValidEmail(email)
  {
    if IsValidEmail(email) {
      ValidIsShaped(email);
    }
  }

  /**
    The test `not local_part` never decides: when the unpacking yields an
    empty local part, the address starts with `@` and the boundary test
    before it has already rejected it.
   */
  lemma EmptyLocalPartStartsWithAt(email: string)
    requires |Split(email, '@')| == 2 && Split(email, '@')[0] == []
    ensures StartsWith(email, '@')
  {
    var names := Split(email, '@');
    assert names[1..] == [names[1]];
    assert Join(names, '@') == [] + ['@'] + names[1];
  }

  // Concrete verdicts on boundary cases of each rule, one address per lemma.

  lemma AcceptsShortAddress()
    ensures IsValidEmail("a@b.co")
  {
  }

  /** A `.` may appear inside the local part and the domain name. */
  lemma AcceptsDottedParts()
    ensures IsValidEmail("a.b@c.d.io")
  {
    Verdict("a.b@c.d.io", "a.b", "c.d", "io");
  }

  /** The local part may end with `.`; an extension of six is the longest. */
  lemma AcceptsTrailingDotInLocalPart()
    ensures IsValidEmail("x.@y.museum")
  {
    Verdict("x.@y.museum", "x.", "y", "museum");
  }

  lemma RejectsOneCharacterExtension()
    ensures !IsValidEmail("a@b.c")
  {
    Verdict("a@b.c", "a", "b", "c");
  }

  lemma RejectsSevenCharacterExtension()
    ensures !IsValidEmail("a@b.abcdefg")
  {
    Verdict("a@b.abcdefg", "a", "b", "abcdefg");
  }

  lemma RejectsEmptyDomainName()
    ensures !IsValidEmail("a@.com")
  {
  }

  /** Two `@`: the unpacking into two names fails. */
  lemma RejectsDoubleAt()
    ensures !IsValidEmail("a@@b.com")
  {
  }

  lemma RejectsMissingAt()
    ensures !IsValidEmail("noatsign.com")
  {
  }

  /** A `.` before the `@` does not stand in for one in the domain. */
  lemma RejectsDomainWithoutDot()
    ensures !IsValidEmail("a.b@com")
  {
  }

  /** Addresses that start or end with `@` or `.`. */
  lemma RejectsBoundaryCharacters()
    ensures !IsValidEmail(".a@b.com")
    ensures !IsValidEmail("@b.com")
    ensures !IsValidEmail("a@")
    ensures !IsValidEmail("a@b.")
  {
  }
}
