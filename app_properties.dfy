/** What the registry promises, and what it does not, across one or more
    signup requests. */
module AppProperties {
  import opened App

  /** How many times `x` occurs in `s`. */
  function Occurrences(s: seq<string>, x: string): (n: nat)
  {
    if s == [] then 0 else (if s[0] == x then 1 else 0) + Occurrences(s[1..], x)
  }

  /** `t` occurs in `s` as a contiguous piece. */
  ghost predicate Contains(s: string, t: string)
  {
    exists i :: 0 <= i <= |s| - |t| && OccursAt(s, t, i)
  }

  /** `t` occurs in `s` starting at index `i`. */
  ghost predicate OccursAt(s: string, t: string, i: int)
    requires 0 <= i <= |s| - |t|
  {
    s[i..i + |t|] == t
  }

  /** No email is listed twice in an activity. */
  ghost predicate NoDuplicates(s: seq<string>)
  {
    forall i, j :: 0 <= i < j < |s| ==> s[i] != s[j]
  }

  /** Appending one element raises its count by one and leaves every other
      count alone. */
  lemma {:induction false} OccurrencesAppend(s: seq<string>, y: string, x: string)
    ensures Occurrences(s + [y], x) == Occurrences(s, x) + (if y == x then 1 else 0)
  {
    if s != [] {
      assert (s + [y])[1..] == s[1..] + [y];
      OccurrencesAppend(s[1..], y, x);
    }
  }

  /** A positive count is the same as membership. */
  lemma {:induction false} OccurrencesPositive(s: seq<string>, x: string)
    ensures Occurrences(s, x) > 0 <==> x in s
  {
    if s != [] {
      OccurrencesPositive(s[1..], x);
      assert s == [s[0]] + s[1..];
    }
  }

  /** The count agrees with the number of copies in the multiset of `s`. */
  lemma {:induction false} OccurrencesIsMultiplicity(s: seq<string>, x: string)
    ensures Occurrences(s, x) == multiset(s)[x]
  {
    if s != [] {
      OccurrencesIsMultiplicity(s[1..], x);
      assert s == [s[0]] + s[1..];
    }
  }

  /** The confirmation message names both the email and the activity. */
  lemma MessageMentions(email: string, activityName: string)
    ensures Contains(SignupMessage(email, activityName), email)
    ensures Contains(SignupMessage(email, activityName), activityName)
  {
    var m := SignupMessage(email, activityName);
    assert OccursAt(m, email, 10);
    assert m[15 + |email|..15 + |email| + |activityName|] == m[15 + |email|..];
    assert OccursAt(m, activityName, 15 + |email|);
  }

  /** Signing up a known activity always succeeds: an email already listed
      is accepted again, is then listed, and appears once more; the list
      gains exactly that one copy of it. */
  lemma DuplicateSignupAccepted(reg: map<string, Activity>, activityName: string, email: string)
    requires activityName in reg
    ensures SignupStep(reg, activityName, email).result.Ok?
    ensures var before := reg[activityName].participants;
            var after := SignupStep(reg, activityName, email).registry[activityName].participants;
            && email in after
            && multiset(after) == multiset(before) + multiset{email}
            && Occurrences(after, email) == Occurrences(before, email) + 1
  {
    var before := reg[activityName].participants;
    var after := before + [email];
    OccurrencesAppend(before, email, email);
    OccurrencesPositive(after, email);
    forall x ensures multiset(after)[x] == (multiset(before) + multiset{email})[x] {
      OccurrencesAppend(before, email, x);
      OccurrencesIsMultiplicity(before, x);
      OccurrencesIsMultiplicity(after, x);
    }
  }

  /** The same email sent twice to a known activity is accepted both times and
      ends up listed twice more than before. */
  lemma SignupTwice(reg: map<string, Activity>, activityName: string, email: string)
    requires activityName in reg
    ensures var first := SignupStep(reg, activityName, email);
            var second := SignupStep(first.registry, activityName, email);
            && first.result.Ok? && second.result.Ok?
            && second.registry[activityName].participants == reg[activityName].participants + [email, email]
            && Occurrences(second.registry[activityName].participants, email)
               == Occurrences(reg[activityName].participants, email) + 2
  {
    var first := SignupStep(reg, activityName, email);
    var second := SignupStep(first.registry, activityName, email);
    var p := reg[activityName].participants;
    assert second.registry[activityName].participants == p + [email] + [email];
    assert p + [email] + [email] == p + [email, email];
    OccurrencesAppend(p, email, email);
    OccurrencesAppend(p + [email], email, email);
  }

  /** Capacity is informational only: a full (or over-full) activity still
      takes one more participant and then holds more than its maximum. */
  lemma CapacityNotEnforced(reg: map<string, Activity>, activityName: string, email: string)
    requires activityName in reg
    requires |reg[activityName].participants| >= reg[activityName].maxParticipants
    ensures var s := SignupStep(reg, activityName, email);
            s.result.Ok? && |s.registry[activityName].participants| > s.registry[activityName].maxParticipants
  {
  }

  /** A listed email signed up again makes the participant list hold a
      repeat, so "each email at most once" is not kept by signup. */
  lemma RepeatBreaksUniqueness(reg: map<string, Activity>, activityName: string, email: string)
    requires activityName in reg && email in reg[activityName].participants
    ensures !NoDuplicates(SignupStep(reg, activityName, email).registry[activityName].participants)
  {
    var p := reg[activityName].participants;
    var q := SignupStep(reg, activityName, email).registry[activityName].participants;
    var i :| 0 <= i < |p| && p[i] == email;
    assert q[i] == email && q[|p|] == email;
  }

  /** One email can be signed up for two different activities; both then
      list it, and neither signup disturbs the other's record beyond that. */
  lemma SignupInTwoActivities(reg: map<string, Activity>, a: string, b: string, email: string)
    requires a in reg && b in reg && a != b
    ensures var r := SignupStep(SignupStep(reg, a, email).registry, b, email).registry;
            && email in r[a].participants && email in r[b].participants
            && r[a].participants == reg[a].participants + [email]
            && r[b].participants == reg[b].participants + [email]
  {
  }

  /** The seeded registry holds eight activities: the eight seeded names are
      pairwise different. */
  lemma SeedHasEightActivities()
    ensures |Seed()| == 8
  {
  }

  /** The seeded participant lists repeat no email. */
  lemma SeedHasNoDuplicates()
    ensures forall name :: name in Seed() ==> NoDuplicates(Seed()[name].participants)
  {
  }

  /** In the initial registry, signing "michael@mergington.edu" up for
      "Chess Club", which already lists that email, is accepted and leaves the
      email listed twice. */
  lemma ChessClubRepeat()
    ensures var s := SignupStep(Seed(), "Chess Club", "michael@mergington.edu");
            && s.result.Ok?
            && s.registry["Chess Club"].participants
               == ["michael@mergington.edu", "daniel@mergington.edu", "michael@mergington.edu"]
            && Occurrences(s.registry["Chess Club"].participants, "michael@mergington.edu") == 2
  {
    var michael, daniel := "michael@mergington.edu", "daniel@mergington.edu";
    assert daniel[0] != michael[0];
    FirstListedAgain(Seed(), "Chess Club", michael, daniel);
  }

  /** An activity listing exactly `x` then `y` (two different emails) that
      gets `x` again ends up listing `x` twice. */
  lemma FirstListedAgain(reg: map<string, Activity>, activityName: string, x: string, y: string)
    requires activityName in reg && reg[activityName].participants == [x, y] && x != y
    ensures var s := SignupStep(reg, activityName, x);
            && s.result.Ok?
            && s.registry[activityName].participants == [x, y, x]
            && Occurrences(s.registry[activityName].participants, x) == 2
  {
    var p := reg[activityName].participants;
    assert p + [x] == [x, y, x];
    assert p[1..] == [y] && [y][1..] == [];
    assert Occurrences([y], x) == 0;
    assert Occurrences(p, x) == 1;
    OccurrencesAppend(p, x, x);
  }
}
