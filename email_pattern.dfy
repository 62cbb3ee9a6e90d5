/**
  The e-mail pattern of the login helper,
    ^[a-zA-Z0-9_.+-]+@[a-zA-Z0-9-]+\.[a-zA-Z0-9-.]+$
  used with `re.match`, written as a character-class scanner.

  The pattern is deterministic: the first class has no '@', so the first run
  ends at the only '@'; the second class has no '.', so it ends at the first
  '.' after the '@'; the third class has no '\n', and `$` (without MULTILINE)
  matches at the end or before one final '\n'. A left-to-right automaton over
  the characters therefore decides it exactly.
*/
module EmailPattern {

  predicate IsAlnum(c: char) {
    'a' <= c <= 'z' || 'A' <= c <= 'Z' || '0' <= c <= '9'
  }

  /** `[a-zA-Z0-9_.+-]`, the part before the '@' */
  predicate IsLocalChar(c: char) {
    IsAlnum(c) || c == '_' || c == '.' || c == '+' || c == '-'
  }

  /** `[a-zA-Z0-9-]`, the label between the '@' and the '.' */
  predicate IsDomainChar(c: char) {
    IsAlnum(c) || c == '-'
  }

  /** `[a-zA-Z0-9-.]`: after the range 0-9 the '-' is a literal, so this is [A-Za-z0-9.-] */
  predicate IsTailChar(c: char) {
    IsAlnum(c) || c == '-' || c == '.'
  }

  predicate AllLocal(s: string) { forall i :: 0 <= i < |s| ==> IsLocalChar(s[i]) }
  predicate AllDomain(s: string) { forall i :: 0 <= i < |s| ==> IsDomainChar(s[i]) }
  predicate AllTail(s: string) { forall i :: 0 <= i < |s| ==> IsTailChar(s[i]) }

  /** Where the scanner is in the pattern after the characters read so far. */
  datatype State =
    | Start            // nothing read
    | Local            // one or more characters of the first class
    | At               // the '@'
    | Domain           // one or more characters of the second class
    | Dot              // the '.'
    | Tail             // one or more characters of the third class: `$` matches here
    | TrailingNewline  // the one '\n' that `$` may stand before
    | Reject           // no match is possible any more

  function Step(q: State, c: char): State {
    match q
    case Start => if IsLocalChar(c) then Local else Reject
    case Local => if IsLocalChar(c) then Local else if c == '@' then At else Reject
    case At => if IsDomainChar(c) then Domain else Reject
    case Domain => if IsDomainChar(c) then Domain else if c == '.' then Dot else Reject
    case Dot => if IsTailChar(c) then Tail else Reject
    case Tail => if IsTailChar(c) then Tail else if c == '\n' then TrailingNewline else Reject
    case TrailingNewline => Reject
    case Reject => Reject
  }

  /** The state reached from q after reading s, last character last. */
  function Run(q: State, s: string): State
    decreases |s|
  {
    if s == [] then q else Step(Run(q, s[..|s| - 1]), s[|s| - 1])
  }

  predicate Accepting(q: State) {
    q == Tail || q == TrailingNewline
  }

  /** `re.match(email_regex, s)` succeeds */
  predicate IsEmail(s: string) {
    Accepting(Run(Start, s))
  }

  // ---------------------------------------------------------------------
  // The shape the pattern describes: L '@' D '.' R, optionally then '\n'.

  datatype Parts = Parts(local: string, domain: string, tail: string, newline: bool)

  function Assemble(p: Parts): string {
    p.local + ['@'] + p.domain + ['.'] + p.tail + (if p.newline then ['\n'] else [])
  }

  predicate WellFormed(p: Parts) {
    && p.local != [] && AllLocal(p.local)
    && p.domain != [] && AllDomain(p.domain)
    && p.tail != [] && AllTail(p.tail)
  }

  /** What the characters read so far must look like when the scanner is in state q. */
  ghost predicate Reached(q: State, s: string) {
    match q
    case Start => s == []
    case Local => s != [] && AllLocal(s)
    case At => exists l :: AllLocal(l) && l != [] && s == l + ['@']
    case Domain => exists l, d :: AllLocal(l) && AllDomain(d) && l != [] && d != [] && s == l + ['@'] + d
    case Dot => exists l, d :: AllLocal(l) && AllDomain(d) && l != [] && d != [] && s == l + ['@'] + d + ['.']
    case Tail => exists p :: WellFormed(p) && !p.newline && Assemble(p) == s
    case TrailingNewline => exists p :: WellFormed(p) && p.newline && Assemble(p) == s
    case Reject => true
  }

  lemma RunAppend(q: State, a: string, b: string)
    ensures Run(q, a + b) == Run(Run(q, a), b)
    decreases |b|
  {
    if b == [] {
      assert a + b == a;
    } else {
      var b' := b[..|b| - 1];
      assert (a + b)[..|a + b| - 1] == a + b';
      RunAppend(q, a, b');
    }
  }

  /** A run of characters on which q loops leaves the scanner in q. */
  lemma {:induction false} RunLoop(q: State, s: string)
    requires forall i :: 0 <= i < |s| ==> Step(q, s[i]) == q
    ensures Run(q, s) == q
    decreases |s|
  {
    if s != [] {
      RunLoop(q, s[..|s| - 1]);
    }
  }

  /** A non-empty run of one class, entered from the state before it. */
  lemma {:induction false} EnterAndLoop(from: State, q: State, s: string)
    requires s != []
    requires Step(from, s[0]) == q
    requires forall i :: 0 <= i < |s| ==> Step(q, s[i]) == q
    ensures Run(from, s) == q
  {
    RunAppend(from, [s[0]], s[1..]);
    assert [s[0]] + s[1..] == s;
    assert Run(from, [s[0]]) == Step(Run(from, []), s[0]);
    RunLoop(q, s[1..]);
  }

  /** Every string of the described shape is accepted. */
  lemma {:induction false} Complete(p: Parts)
    requires WellFormed(p)
    ensures IsEmail(Assemble(p))
  {
    var l, d, t := p.local, p.domain, p.tail;
    EnterAndLoop(Start, Local, l);
    EnterAndLoop(At, Domain, d);
    EnterAndLoop(Dot, Tail, t);
    RunAppend(Start, l, ['@']);
    RunAppend(Start, l + ['@'], d);
    RunAppend(Start, l + ['@'] + d, ['.']);
    RunAppend(Start, l + ['@'] + d + ['.'], t);
    var core := l + ['@'] + d + ['.'] + t;
    assert Run(Start, core) == Tail;
    if p.newline {
      RunAppend(Start, core, ['\n']);
    } else {
      assert Assemble(p) == core;
    }
  }

  /** The scanner's state always describes the prefix read so far. */
  lemma {:induction false} ReachedInvariant(s: string)
    ensures Reached(Run(Start, s), s)
    decreases |s|
  {
    if s != [] {
      var s', c := s[..|s| - 1], s[|s| - 1];
      assert s == s' + [c];
      ReachedInvariant(s');
      var q' := Run(Start, s');
      match q'
      case Start =>
        assert [c] == s;
      case Local =>
        if c == '@' {
          assert AllLocal(s') && s' != [] && s == s' + ['@'];
        }
      case At =>
        var l :| AllLocal(l) && l != [] && s' == l + ['@'];
        if IsDomainChar(c) {
          assert AllDomain([c]) && s == l + ['@'] + [c];
        }
      case Domain =>
        var l, d :| AllLocal(l) && AllDomain(d) && l != [] && d != [] && s' == l + ['@'] + d;
        if IsDomainChar(c) {
          assert AllDomain(d + [c]) && s == l + ['@'] + (d + [c]);
        } else if c == '.' {
          assert s == l + ['@'] + d + ['.'];
        }
      case Dot =>
        var l, d :| AllLocal(l) && AllDomain(d) && l != [] && d != [] && s' == l + ['@'] + d + ['.'];
        if IsTailChar(c) {
          var p := Parts(l, d, [c], false);
          assert Assemble(p) == s;
        }
      case Tail =>
        var p :| WellFormed(p) && !p.newline && Assemble(p) == s';
        if IsTailChar(c) {
          var p2 := p.(tail := p.tail + [c]);
          assert Assemble(p2) == s;
        } else if c == '\n' {
          var p2 := p.(newline := true);
          assert Assemble(p2) == s;
        }
      case TrailingNewline =>
      case Reject =>
    }
  }

  /** The pattern accepts exactly the strings L '@' D '.' R, optionally followed by one '\n'. */
  lemma Characterization(s: string)
    ensures IsEmail(s) <==> exists p :: WellFormed(p) && Assemble(p) == s
  {
    if IsEmail(s) {
      ReachedInvariant(s);
    }
    if exists p :: WellFormed(p) && Assemble(p) == s {
      var p :| WellFormed(p) && Assemble(p) == s;
      Complete(p);
    }
  }

  /** An accepted string holds exactly one '@'. */
  lemma ExactlyOneAt(s: string)
    requires IsEmail(s)
    ensures multiset(s)['@'] == 1
  {
    Characterization(s);
    var p :| WellFormed(p) && Assemble(p) == s;
    assert '@' !in p.local;
    assert '@' !in p.domain;
    assert '@' !in p.tail;
    var nl: string := if p.newline then ['\n'] else [];
    assert multiset(s) == multiset(p.local) + multiset(['@']) + multiset(p.domain)
                          + multiset(['.']) + multiset(p.tail) + multiset(nl);
  }

  /** A string without '@' is never taken for an e-mail address. */
  lemma NoAtIsNotEmail(s: string)
    requires '@' !in s
    ensures !IsEmail(s)
  {
    if IsEmail(s) {
      ExactlyOneAt(s);
    }
  }

  /** The identifier of the sign-up scenario is an e-mail address, with or without a final newline. */
  lemma ScenarioAddress()
    ensures IsEmail("alice@x.com") && IsEmail("alice@x.com\n")
  {
    var p := Parts("alice", "x", "com", false);
    assert Assemble(p) == "alice@x.com";
    Complete(p);
    assert Assemble(p.(newline := true)) == "alice@x.com\n";
    Complete(p.(newline := true));
  }
}
