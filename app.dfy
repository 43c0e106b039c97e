/** The activity registry of the Mergington High School API: an in-memory
    table from activity names to activity records, read as a whole by
    `get_activities` and extended one participant at a time by
    `signup_for_activity`. */
module App {

  /** One extracurricular activity, as stored under its name. */
  datatype Activity = Activity(
    description: string,
    schedule: string,
    maxParticipants: nat,
    participants: seq<string>,
    category: string)

  /** What a signup request answers: a confirmation message (HTTP 200) or
      the "unknown activity" client error (HTTP 404). */
  datatype SignupResult = Ok(message: string) | NotFound(detail: string)

  /** The HTTP status code a signup result is reported with. */
  function StatusCode(r: SignupResult): (code: nat)
    ensures r.Ok? <==> code == 200
    ensures r.NotFound? <==> code == 404
  {
    match r
    case Ok(_) => 200
    case NotFound(_) => 404
  }

  const NotFoundDetail: string := "Activity not found"

  /** The seeded registry the process starts with. */
  function Seed(): (m: map<string, Activity>)
    ensures "Chess Club" in m && "Programming Class" in m
    ensures m["Chess Club"].participants == ["michael@mergington.edu", "daniel@mergington.edu"]
    ensures forall name :: name in m ==> |m[name].participants| <= m[name].maxParticipants
  {
    map[
      "Chess Club" := ChessClub,
      "Programming Class" := ProgrammingClass,
      "Gym Class" := GymClass,
      "Basketball Team" := BasketballTeam,
      "Drama Club" := DramaClub,
      "Art Studio" := ArtStudio,
      "Debate Team" := DebateTeam,
      "Music Band" := MusicBand
    ]
  }

  // The seeded activities, one constant each.

  const ChessClub: Activity := Activity(
    "Learn strategies and compete in chess tournaments",
    "Fridays, 3:30 PM - 5:00 PM",
    12,
    ["michael@mergington.edu", "daniel@mergington.edu"],
    "Academic")

  const ProgrammingClass: Activity := Activity(
    "Learn programming fundamentals and build software projects",
    "Tuesdays and Thursdays, 3:30 PM - 4:30 PM",
    20,
    ["emma@mergington.edu", "sophia@mergington.edu"],
    "Academic")

  const GymClass: Activity := Activity(
    "Physical education and sports activities",
    "Mondays, Wednesdays, Fridays, 2:00 PM - 3:00 PM",
    30,
    ["john@mergington.edu", "olivia@mergington.edu"],
    "Sports")

  const BasketballTeam: Activity := Activity(
    "Join the school basketball team and compete in tournaments",
    "Mondays and Thursdays, 4:00 PM - 6:00 PM",
    15,
    ["alex@mergington.edu"],
    "Sports")

  const DramaClub: Activity := Activity(
    "Explore acting, stagecraft, and theatrical productions",
    "Wednesdays, 3:30 PM - 5:30 PM",
    25,
    ["sarah@mergington.edu", "tim@mergington.edu"],
    "Arts")

  const ArtStudio: Activity := Activity(
    "Develop your artistic skills in painting, drawing, and sculpture",
    "Tuesdays, 3:00 PM - 5:00 PM",
    18,
    [],
    "Arts")

  const DebateTeam: Activity := Activity(
    "Sharpen your critical thinking and public speaking skills",
    "Thursdays, 3:30 PM - 5:00 PM",
    16,
    ["rachel@mergington.edu"],
    "Academic")

  const MusicBand: Activity := Activity(
    "Play instruments and perform in school concerts and events",
    "Fridays, 3:00 PM - 5:00 PM",
    20,
    ["jason@mergington.edu", "emily@mergington.edu"],
    "Arts")

  /** The confirmation text of a successful signup. */
  function SignupMessage(email: string, activityName: string): (m: string)
    ensures |m| == |email| + |activityName| + 15
    ensures m[..10] == "Signed up " && m[10..10 + |email|] == email
    ensures m[10 + |email|..15 + |email|] == " for " && m[15 + |email|..] == activityName
  {
    "Signed up " + email + " for " + activityName
  }

  /** The outcome of one signup: what is answered and what the registry is
      afterwards. */
  datatype Step = Step(result: SignupResult, registry: map<string, Activity>)

  /** The whole effect of one signup request on a registry `reg`: an unknown
      name is refused and changes nothing; a known name gets `email` appended
      to its participants, with no duplicate and no capacity check. */
  function SignupStep(reg: map<string, Activity>, activityName: string, email: string): (s: Step)
    ensures activityName !in reg <==> s.result == NotFound(NotFoundDetail)
    ensures activityName in reg <==> s.result == Ok(SignupMessage(email, activityName))
    ensures activityName !in reg ==> s.registry == reg
    ensures s.registry.Keys == reg.Keys
    ensures forall other :: other in reg && other != activityName ==> s.registry[other] == reg[other]
    ensures activityName in reg ==>
      var before, after := reg[activityName], s.registry[activityName];
      && after.participants == before.participants + [email]
      && |after.participants| == |before.participants| + 1
      && after.description == before.description
      && after.schedule == before.schedule
      && after.maxParticipants == before.maxParticipants
      && after.category == before.category
  {
    if activityName !in reg then
      Step(NotFound(NotFoundDetail), reg)
    else
      var activity := reg[activityName];
      var updated := activity.(participants := activity.participants + [email]);
      Step(Ok(SignupMessage(email, activityName)), reg[activityName := updated])
  }

  /** The module-level `activities` table together with its two handlers. */
  class Registry {
    var activities: map<string, Activity>

    /** No handler creates or deletes an activity: the names are always the
        seeded ones. */
    ghost predicate Valid()
      reads this
    {
      activities.Keys == Seed().Keys
    }

    /** The table as the process starts: the seed data. */
    constructor ()
      ensures Valid() && activities == Seed()
    {
      activities := Seed();
    }

    /** `GET /activities`: answers the whole table, unchanged. */
    method GetActivities() returns (r: map<string, Activity>)
      ensures r == activities
    {
      r := activities;
    }

    /** `POST /activities/{activity_name}/signup?email=...`. */
    method SignupForActivity(activityName: string, email: string) returns (res: SignupResult)
      requires Valid()
      modifies this
      ensures Valid()
      ensures Step(res, activities) == SignupStep(old(activities), activityName, email)
      ensures activities.Keys == old(activities).Keys
      ensures res.NotFound? <==> activityName !in old(activities)
      ensures res.NotFound? ==> activities == old(activities) && res.detail == NotFoundDetail
      ensures res.Ok? ==>
        && res.message == SignupMessage(email, activityName)
        && activities[activityName].participants == old(activities)[activityName].participants + [email]
    {
      if activityName !in activities {
        return NotFound(NotFoundDetail);
      }
      var activity := activities[activityName];
      activity := activity.(participants := activity.participants + [email]);
      activities := activities[activityName := activity];
      res := Ok(SignupMessage(email, activityName));
    }
  }
}
