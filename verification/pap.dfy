/**
  The ban-rule filter applied to a policy list fetched from an ARGUS PAP
  (Policy Administration Point), shared by the main script's
  fetch_ban_list and the ARGUS input plugin.

  The XACML document itself is not parsed here: a reply is given as the
  sequence of its xacml:Rule elements in document order, each with its
  Effect attribute and its xacml:SubjectMatch clauses, and each clause with
  the AttributeId of its designator and the text of its AttributeValue.
*/
module Pap {
  import opened Wrappers
  import opened Text
  import Dn

  /** The XACML 2.0 subject-id attribute identifier (appendix B.4 of the
      XACML 2.0 core specification), the only designator whose values are DNs. */
  const SUBJECT_ID: string := "urn:oasis:names:tc:xacml:1.0:subject:subject-id"

  /** One xacml:SubjectMatch: the designator's AttributeId and the value text. */
  datatype SubjectMatch = SubjectMatch(attributeId: string, value: string)

  /** One xacml:Rule: its Effect attribute and its subject matches in order. */
  datatype Rule = Rule(effect: string, matches: seq<SubjectMatch>)

  /** What the HTTP exchange with the PAP produced: a transport failure with
      curl's message, or a status code with the parsed document (or the
      parser's complaint). */
  datatype Reply =
    | CurlError(message: string)
    | Response(code: nat, body: Result<seq<Rule>, string>)

  /** A ban rule: its effect lower-cases to "deny". */
  predicate IsDeny(r: Rule)
  {
    Lower(r.effect) == "deny"
  }

  /** A DN clause: its designator lower-cases to the subject-id URN. */
  predicate IsSubjectId(m: SubjectMatch)
  {
    Lower(m.attributeId) == SUBJECT_ID
  }

  /** The AttributeValue texts of the subject-id clauses among `ms`, in order. */
  function SubjectValues(ms: seq<SubjectMatch>): seq<string>
  {
    if ms == [] then []
    else
      var last := ms[|ms| - 1];
      SubjectValues(ms[..|ms| - 1]) + (if IsSubjectId(last) then [last.value] else [])
  }

  /** The subject-id values of the ban rules among `rules`, in document order. */
  function DenyValues(rules: seq<Rule>): seq<string>
  {
    if rules == [] then []
    else
      var last := rules[|rules| - 1];
      DenyValues(rules[..|rules| - 1]) + (if IsDeny(last) then SubjectValues(last.matches) else [])
  }

  /** The DNs a reply's rules contribute: each ban value in openssl form. */
  function DenyDns(rules: seq<Rule>): (dns: seq<string>)
    ensures |dns| == |DenyValues(rules)|
    ensures forall k {:trigger dns[k]} :: 0 <= k < |dns| ==> dns[k] == Dn.RfcToOpenssl(DenyValues(rules)[k])
  {
    Dn.ConvertAll(DenyValues(rules))
  }

  /** The nested filtering loop: every deny rule, every subject-id clause in
      it, one converted DN appended per clause. */
  method ExtractDenyDns(rules: seq<Rule>) returns (dns: seq<string>)
    ensures dns == DenyDns(rules)
  {
    dns := [];
    var i := 0;
    while i < |rules|
      invariant 0 <= i <= |rules|
      invariant dns == Dn.ConvertAll(DenyValues(rules[..i]))
    {
      DenyValuesSnoc(rules, i);
      if IsDeny(rules[i]) {
        dns := AppendSubjectDns(dns, DenyValues(rules[..i]), rules[i].matches);
      } else {
        assert DenyValues(rules[..i]) + [] == DenyValues(rules[..i]);
      }
      i := i + 1;
    }
    assert rules[..i] == rules;
  }

  /** The inner loop of `ExtractDenyDns` over the clauses of one deny rule:
      the converted DN of every subject-id clause appended in order to the
      DNs `dns` already picked from the values `before`. */
  method AppendSubjectDns(dns: seq<string>, ghost before: seq<string>, ms: seq<SubjectMatch>)
    returns (dns': seq<string>)
    requires dns == Dn.ConvertAll(before)
    ensures dns' == Dn.ConvertAll(before + SubjectValues(ms))
  {
    dns' := dns;
    var j := 0;
    assert before + SubjectValues(ms[..0]) == before;
    while j < |ms|
      invariant 0 <= j <= |ms|
      invariant dns' == Dn.ConvertAll(before + SubjectValues(ms[..j]))
    {
      ConvertedSnoc(before, ms, j);
      if IsSubjectId(ms[j]) {
        dns' := dns' + [Dn.RfcToOpenssl(ms[j].value)];
      }
      j := j + 1;
    }
    assert ms[..j] == ms;
  }

  /** The inner loop's step: one more clause appends its converted value
      when it is a subject-id clause. */
  lemma ConvertedSnoc(before: seq<string>, ms: seq<SubjectMatch>, j: nat)
    requires j < |ms|
    ensures Dn.ConvertAll(before + SubjectValues(ms[..j + 1]))
      == Dn.ConvertAll(before + SubjectValues(ms[..j]))
        + (if IsSubjectId(ms[j]) then [Dn.RfcToOpenssl(ms[j].value)] else [])
  {
    var picked := SubjectValues(ms[..j]);
    SubjectValuesSnoc(ms, j);
    if IsSubjectId(ms[j]) {
      assert before + (picked + [ms[j].value]) == (before + picked) + [ms[j].value];
      Dn.ConvertAllAppend(before + picked, ms[j].value);
    } else {
      assert picked + [] == picked;
    }
  }

  /** One more clause adds its value when it is a subject-id clause. */
  lemma SubjectValuesSnoc(ms: seq<SubjectMatch>, j: nat)
    requires j < |ms|
    ensures SubjectValues(ms[..j + 1])
      == SubjectValues(ms[..j]) + (if IsSubjectId(ms[j]) then [ms[j].value] else [])
  {
    assert ms[..j + 1][..j] == ms[..j];
  }

  /** One more rule adds its subject-id values when it is a deny rule. */
  lemma DenyValuesSnoc(rules: seq<Rule>, i: nat)
    requires i < |rules|
    ensures DenyValues(rules[..i + 1])
      == DenyValues(rules[..i]) + (if IsDeny(rules[i]) then SubjectValues(rules[i].matches) else [])
  {
    assert rules[..i + 1][..i] == rules[..i];
  }

  /** The clauses of a concatenation contribute in order. */
  lemma {:induction false} SubjectValuesAppend(a: seq<SubjectMatch>, b: seq<SubjectMatch>)
    ensures SubjectValues(a + b) == SubjectValues(a) + SubjectValues(b)
    decreases |b|
  {
    if b == [] {
      assert a + b == a;
    } else {
      var b' := b[..|b| - 1];
      assert (a + b)[..|a + b| - 1] == a + b';
      SubjectValuesAppend(a, b');
    }
  }

  /** The rules of a concatenation contribute in order: a document's DNs
      come out in document order. */
  lemma DenyDnsAppend(a: seq<Rule>, b: seq<Rule>)
    ensures DenyDns(a + b) == DenyDns(a) + DenyDns(b)
  {
    DenyValuesAppend(a, b);
    Dn.ConvertAllConcat(DenyValues(a), DenyValues(b));
  }

  lemma {:induction false} DenyValuesAppend(a: seq<Rule>, b: seq<Rule>)
    ensures DenyValues(a + b) == DenyValues(a) + DenyValues(b)
    decreases |b|
  {
    if b == [] {
      assert a + b == a;
    } else {
      var ab, b', last := a + b, b[..|b| - 1], b[|b| - 1];
      var extra := if IsDeny(last) then SubjectValues(last.matches) else [];
      assert ab[|ab| - 1] == last;
      assert ab[..|ab| - 1] == a + b';
      assert DenyValues(ab) == DenyValues(a + b') + extra;
      assert DenyValues(b) == DenyValues(b') + extra;
      DenyValuesAppend(a, b');
    }
  }

  /** Every value picked from a clause list is carried by one of its
      subject-id clauses. */
  lemma {:induction false} SubjectValuesFrom(ms: seq<SubjectMatch>, v: string)
    requires v in SubjectValues(ms)
    ensures exists j :: 0 <= j < |ms| && IsSubjectId(ms[j]) && ms[j].value == v
  {
    var init := ms[..|ms| - 1];
    if v in SubjectValues(init) {
      SubjectValuesFrom(init, v);
      var j :| 0 <= j < |init| && IsSubjectId(init[j]) && init[j].value == v;
      assert ms[j] == init[j];
    } else {
      assert IsSubjectId(ms[|ms| - 1]) && ms[|ms| - 1].value == v;
    }
  }

  /** The value of every subject-id clause is picked. */
  lemma {:induction false} SubjectValuesHas(ms: seq<SubjectMatch>, j: nat)
    requires j < |ms| && IsSubjectId(ms[j])
    ensures ms[j].value in SubjectValues(ms)
  {
    var init := ms[..|ms| - 1];
    if j < |init| {
      assert init[j] == ms[j];
      SubjectValuesHas(init, j);
    }
  }

  /** A value is picked from a clause list exactly when some subject-id
      clause carries it. */
  lemma SubjectValuesMember(ms: seq<SubjectMatch>, v: string)
    ensures v in SubjectValues(ms) <==> exists j :: 0 <= j < |ms| && IsSubjectId(ms[j]) && ms[j].value == v
  {
    if v in SubjectValues(ms) {
      SubjectValuesFrom(ms, v);
    }
    if exists j :: 0 <= j < |ms| && IsSubjectId(ms[j]) && ms[j].value == v {
      var j :| 0 <= j < |ms| && IsSubjectId(ms[j]) && ms[j].value == v;
      SubjectValuesHas(ms, j);
    }
  }

  /** Every value picked from a document is carried by a subject-id clause
      of one of its deny rules. */
  lemma {:induction false} DenyValuesFrom(rules: seq<Rule>, v: string)
    requires v in DenyValues(rules)
    ensures exists i, j ::
      0 <= i < |rules| && IsDeny(rules[i]) && 0 <= j < |rules[i].matches|
      && IsSubjectId(rules[i].matches[j]) && rules[i].matches[j].value == v
  {
    var init := rules[..|rules| - 1];
    var last := rules[|rules| - 1];
    if v in DenyValues(init) {
      DenyValuesFrom(init, v);
      var i, j :| 0 <= i < |init| && IsDeny(init[i]) && 0 <= j < |init[i].matches|
        && IsSubjectId(init[i].matches[j]) && init[i].matches[j].value == v;
      assert rules[i] == init[i];
    } else {
      assert IsDeny(last) && v in SubjectValues(last.matches);
      SubjectValuesFrom(last.matches, v);
      var j :| 0 <= j < |last.matches| && IsSubjectId(last.matches[j]) && last.matches[j].value == v;
      assert rules[|rules| - 1].matches[j] == last.matches[j];
    }
  }

  /** The value of every subject-id clause of every deny rule is picked. */
  lemma {:induction false} DenyValuesHas(rules: seq<Rule>, i: nat, j: nat)
    requires i < |rules| && IsDeny(rules[i])
    requires j < |rules[i].matches| && IsSubjectId(rules[i].matches[j])
    ensures rules[i].matches[j].value in DenyValues(rules)
  {
    var init := rules[..|rules| - 1];
    if i < |init| {
      assert init[i] == rules[i];
      DenyValuesHas(init, i, j);
    } else {
      SubjectValuesHas(rules[i].matches, j);
    }
  }

  /** A value is picked from a document exactly when it is carried by a
      subject-id clause of a deny rule. Other effects and other designators
      are skipped, never reported. */
  lemma DenyValuesMember(rules: seq<Rule>, v: string)
    ensures v in DenyValues(rules) <==>
      exists i, j :: 0 <= i < |rules| && IsDeny(rules[i]) && 0 <= j < |rules[i].matches|
        && IsSubjectId(rules[i].matches[j]) && rules[i].matches[j].value == v
  {
    if v in DenyValues(rules) {
      DenyValuesFrom(rules, v);
    }
    if exists i, j :: 0 <= i < |rules| && IsDeny(rules[i]) && 0 <= j < |rules[i].matches|
        && IsSubjectId(rules[i].matches[j]) && rules[i].matches[j].value == v
    {
      var i, j :| 0 <= i < |rules| && IsDeny(rules[i]) && 0 <= j < |rules[i].matches|
        && IsSubjectId(rules[i].matches[j]) && rules[i].matches[j].value == v;
      DenyValuesHas(rules, i, j);
    }
  }

  /** Each subject-id clause contributes exactly one value, so a clause list
      yields no more values than it has clauses. */
  function CountSubjectIds(ms: seq<SubjectMatch>): nat
  {
    if ms == [] then 0
    else CountSubjectIds(ms[..|ms| - 1]) + (if IsSubjectId(ms[|ms| - 1]) then 1 else 0)
  }

  lemma {:induction false} SubjectValuesLength(ms: seq<SubjectMatch>)
    ensures |SubjectValues(ms)| == CountSubjectIds(ms) <= |ms|
  {
    if ms != [] {
      SubjectValuesLength(ms[..|ms| - 1]);
    }
  }
}
