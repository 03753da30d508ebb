/**
 * NewUserProfile: the profile form (four text fields and a group of five
 * fitness-level buttons), its ordered validation, and the five-line file
 * "userProfile.txt" it saves and loads.
 */
module Profile {
  import opened JavaText
  import opened FileStore

  /** The five buttons of the fitness-level group. */
  datatype Level = Beginner | Novice | Intermediate | Advanced | Expert

  /** The buttons in the order they were added to the group. */
  const Levels: seq<Level> := [Beginner, Novice, Intermediate, Advanced, Expert]

  /** The text of a level's button, which is also what the file stores. */
  function Label(level: Level): string {
    match level
    case Beginner => "Beginner"
    case Novice => "Novice"
    case Intermediate => "Intermediate"
    case Advanced => "Advanced"
    case Expert => "Expert"
  }

  /** The switch of loadUserData: the level whose label is exactly s, if any. */
  function LevelOfLabel(s: string): Option<Level> {
    if s == "Beginner" then Some(Beginner)
    else if s == "Novice" then Some(Novice)
    else if s == "Intermediate" then Some(Intermediate)
    else if s == "Advanced" then Some(Advanced)
    else if s == "Expert" then Some(Expert)
    else None
  }

  /** The switch recognises a text exactly when it is the label of that level. */
  lemma LevelOfLabelIsInverse(s: string, level: Level)
    ensures LevelOfLabel(s) == Some(level) <==> s == Label(level)
  {
  }

  /** Every level has a button, and each button appears once. */
  lemma LevelsListEveryLevelOnce(level: Level)
    ensures level in Levels
    ensures forall i, j :: 0 <= i < j < |Levels| ==> Levels[i] != Levels[j]
  {
  }

  /** The file the profile is kept in. */
  const ProfileFile: string := "userProfile.txt"

  /** What the form holds: the four field texts and the selected level, if one is. */
  datatype ProfileFields = ProfileFields(firstName: string, lastName: string, age: string, weight: string,
                                         level: Option<Level>)

  /** The empty form: fields cleared and no level selected. */
  const EmptyFields: ProfileFields := ProfileFields("", "", "", "", None)

  // ---------------------------------------------------------------------------
  // Validation
  // ---------------------------------------------------------------------------

  /** The verdict of validateUserInputs: acceptance, or the message of the first failed check. */
  datatype Verdict =
    | Accepted
    | FirstNameEmpty
    | LastNameEmpty
    | AgeNotInteger
    | AgeOutOfRange
    | WeightNotNumber
    | WeightNotPositive
    | NoLevelSelected

  /**
   * What the checks of validateUserInputs look at: the trimmed names, the
   * trimmed age as Integer.parseInt reads it, the trimmed weight as
   * Double.parseDouble reads it (given as parseDouble, None for
   * NumberFormatException), and the selected level.
   */
  datatype CheckedInputs = CheckedInputs(firstName: string, lastName: string, age: Option<int>,
                                         weight: Option<real>, level: Option<Level>)

  /** What validateUserInputs reads from the form: the trimmed texts, parsed where a number is expected. */
  function Inputs(f: ProfileFields, parseDouble: string -> Option<real>): CheckedInputs
  {
    CheckedInputs(Trim(f.firstName), Trim(f.lastName), ParseInt(Trim(f.age)), parseDouble(Trim(f.weight)), f.level)
  }

  /** The chain of checks: the first that fails decides the verdict. */
  function Decide(c: CheckedInputs): Verdict {
    if c.firstName == "" then FirstNameEmpty
    else if c.lastName == "" then LastNameEmpty
    else if c.age.None? then AgeNotInteger
    else if c.age.value < 1 || c.age.value > 100 then AgeOutOfRange
    else if c.weight.None? then WeightNotNumber
    else if c.weight.value <= 0.0 then WeightNotPositive
    else if c.level.None? then NoLevelSelected
    else Accepted
  }

  /**
   * validateUserInputs. The weight is parsed only after the age passed in the
   * source; parsing is pure here, so reading every input first gives the same verdict.
   */
  function Validate(f: ProfileFields, parseDouble: string -> Option<real>): Verdict {
    Decide(Inputs(f, parseDouble))
  }

  /** The number of checks. */
  const CheckCount: nat := 7

  /** Whether check k, taken on its own, rejects the inputs. */
  predicate CheckFails(k: nat, c: CheckedInputs) {
    match k
    case 0 => c.firstName == ""
    case 1 => c.lastName == ""
    case 2 => c.age.None?
    case 3 => c.age.Some? && (c.age.value < 1 || c.age.value > 100)
    case 4 => c.weight.None?
    case 5 => c.weight.Some? && c.weight.value <= 0.0
    case 6 => c.level.None?
    case _ => false
  }

  /** The message that check k shows. */
  function CheckVerdict(k: nat): (v: Verdict)
    requires k < CheckCount
    ensures v != Accepted
  {
    match k
    case 0 => FirstNameEmpty
    case 1 => LastNameEmpty
    case 2 => AgeNotInteger
    case 3 => AgeOutOfRange
    case 4 => WeightNotNumber
    case 5 => WeightNotPositive
    case _ => NoLevelSelected
  }

  /** The inputs pass checks 0 .. k - 1. */
  predicate PassesBefore(k: nat, c: CheckedInputs) {
    forall j: nat :: j < k ==> !CheckFails(j, c)
  }

  /** Passing the first k + 1 checks is passing the first k and then check k. */
  lemma PassesBeforeStep(k: nat, c: CheckedInputs)
    ensures PassesBefore(k + 1, c) <==> PassesBefore(k, c) && !CheckFails(k, c)
  {
    if PassesBefore(k, c) && !CheckFails(k, c) {
      forall j: nat | j < k + 1
        ensures !CheckFails(j, c)
      {
        if j < k {
          assert !CheckFails(j, c);
        }
      }
    }
  }

  /** The verdict when the first k checks pass: check k's message if it fails, the rest of the chain otherwise. */
  function DecideFrom(k: nat, c: CheckedInputs): Verdict
    requires k <= CheckCount
    decreases CheckCount - k
  {
    if k == CheckCount then Accepted
    else if CheckFails(k, c) then CheckVerdict(k)
    else DecideFrom(k + 1, c)
  }

  /** The chain of checks is the generic first-failure rule started at check 0. */
  lemma DecideIsFirstFailure(c: CheckedInputs)
    ensures Decide(c) == DecideFrom(0, c)
  {
    assert DecideFrom(6, c) == (if c.level.None? then NoLevelSelected else Accepted);
    assert DecideFrom(5, c) == (if CheckFails(5, c) then WeightNotPositive else DecideFrom(6, c));
    assert DecideFrom(4, c) == (if CheckFails(4, c) then WeightNotNumber else DecideFrom(5, c));
    assert DecideFrom(3, c) == (if CheckFails(3, c) then AgeOutOfRange else DecideFrom(4, c));
  }

  /**
   * Started after k passing checks, the rule reports check m (m >= k) exactly
   * when m fails and every check from k to m - 1 passes.
   */
  lemma {:induction false} DecideFromReports(k: nat, c: CheckedInputs, m: nat)
    requires k <= m < CheckCount
    requires PassesBefore(k, c)
    ensures DecideFrom(k, c) == CheckVerdict(m) <==> CheckFails(m, c) && PassesBefore(m, c)
    decreases CheckCount - k
  {
    if CheckFails(k, c) {
      if k < m {
        assert !PassesBefore(m, c);
      }
    } else {
      PassesBeforeStep(k, c);
      if k == m {
        assert DecideFrom(k + 1, c) != CheckVerdict(m) by {
          NeverReportsEarlier(k + 1, c, m);
        }
      } else {
        DecideFromReports(k + 1, c, m);
      }
    }
  }

  /** Started at check k, the rule never reports a check before k. */
  lemma {:induction false} NeverReportsEarlier(k: nat, c: CheckedInputs, m: nat)
    requires m < k <= CheckCount
    ensures DecideFrom(k, c) != CheckVerdict(m)
    decreases CheckCount - k
  {
    if k < CheckCount && !CheckFails(k, c) {
      NeverReportsEarlier(k + 1, c, m);
    }
  }

  /** Started after k passing checks, the rule accepts exactly when every check passes. */
  lemma {:induction false} DecideFromAccepts(k: nat, c: CheckedInputs)
    requires k <= CheckCount
    requires PassesBefore(k, c)
    ensures DecideFrom(k, c) == Accepted <==> PassesBefore(CheckCount, c)
    decreases CheckCount - k
  {
    if k < CheckCount {
      PassesBeforeStep(k, c);
      if !CheckFails(k, c) {
        DecideFromAccepts(k + 1, c);
      } else {
        assert !PassesBefore(CheckCount, c);
      }
    }
  }

  /** Validation reports check k exactly when k is the first check that fails. */
  lemma ValidateReportsFirstFailure(f: ProfileFields, parseDouble: string -> Option<real>, k: nat)
    requires k < CheckCount
    ensures var c := Inputs(f, parseDouble);
            Validate(f, parseDouble) == CheckVerdict(k) <==> CheckFails(k, c) && PassesBefore(k, c)
  {
    var c := Inputs(f, parseDouble);
    DecideIsFirstFailure(c);
    DecideFromReports(0, c, k);
  }

  /** Validation accepts exactly the forms that pass every check. */
  lemma ValidateAcceptsIffAllPass(f: ProfileFields, parseDouble: string -> Option<real>)
    ensures Validate(f, parseDouble) == Accepted <==> PassesBefore(CheckCount, Inputs(f, parseDouble))
  {
    var c := Inputs(f, parseDouble);
    DecideIsFirstFailure(c);
    DecideFromAccepts(0, c);
  }

  /**
   * Once both names are present, the age is let through exactly when its
   * trimmed text is a Java int between 1 and 100.
   */
  lemma AgeAcceptedExactly(f: ProfileFields, parseDouble: string -> Option<real>)
    requires Trim(f.firstName) != "" && Trim(f.lastName) != ""
    ensures Validate(f, parseDouble) != AgeNotInteger && Validate(f, parseDouble) != AgeOutOfRange <==>
              ParseInt(Trim(f.age)).Some? && 1 <= ParseInt(Trim(f.age)).value <= 100
  {
    var c := Inputs(f, parseDouble);
    assert Validate(f, parseDouble) == Decide(c);
  }

  /** An accepted form has a level selected. */
  lemma AcceptedHasLevel(f: ProfileFields, parseDouble: string -> Option<real>)
    requires Validate(f, parseDouble) == Accepted
    ensures f.level.Some?
  {
    ValidateAcceptsIffAllPass(f, parseDouble);
    assert !CheckFails(6, Inputs(f, parseDouble));
  }

  // ---------------------------------------------------------------------------
  // The profile file
  // ---------------------------------------------------------------------------

  /** The lines saveUserProfile writes: the four trimmed fields, then the selected level's label. */
  function ProfileLines(f: ProfileFields): (lines: seq<string>)
    ensures |lines| == if f.level.Some? then 5 else 4
  {
    [Trim(f.firstName), Trim(f.lastName), Trim(f.age), Trim(f.weight)]
    + (if f.level.Some? then [Label(f.level.value)] else [])
  }

  /** The result of loadUserData. */
  datatype ProfileLoadOutcome =
    | ProfileMissing    // FileNotFoundException, caught: nothing changes
    | ProfileTooShort   // IndexOutOfBoundsException escapes after the fields read so far were set
    | ProfileLoaded

  /** What the form holds after loadUserData read the given lines into it. */
  function AfterLoad(lines: seq<string>, f: ProfileFields): ProfileFields
  {
    ProfileFields(
      if |lines| > 0 then lines[0] else f.firstName,
      if |lines| > 1 then lines[1] else f.lastName,
      if |lines| > 2 then lines[2] else f.age,
      if |lines| > 3 then lines[3] else f.weight,
      if |lines| > 4 && LevelOfLabel(lines[4]).Some? then LevelOfLabel(lines[4]) else f.level)
  }

  /** The profile form. */
  class ProfileForm {
    var firstName: string
    var lastName: string
    var age: string
    var weight: string
    var level: Option<Level>

    function Fields(): ProfileFields
      reads this
    {
      ProfileFields(firstName, lastName, age, weight, level)
    }

    /** A new form: empty fields, no level selected. */
    constructor ()
      ensures Fields() == EmptyFields
    {
      firstName, lastName, age, weight := "", "", "", "";
      level := None;
    }

    /**
     * saveUserProfile: collects the trimmed fields and the label of the first
     * selected button, then prints them to the profile file, one per line.
     */
    method SaveUserProfile(disk: Disk)
      modifies disk
      ensures disk.files == old(disk.files)[ProfileFile := Printed(ProfileLines(Fields()))]
    {
      var userData := [Trim(firstName), Trim(lastName), Trim(age), Trim(weight)];
      ghost var fields := userData;
      var i := 0;
      while i < |Levels|
        invariant 0 <= i <= |Levels|
        invariant forall j :: 0 <= j < i ==> level != Some(Levels[j])
        invariant userData == fields
        invariant disk.files == old(disk.files)
      {
        if level == Some(Levels[i]) {
          userData := userData + [Label(Levels[i])];
          break;
        }
        i := i + 1;
      }
      if level.Some? {
        LevelsListEveryLevelOnce(level.value);
        assert userData == fields + [Label(level.value)];
      } else {
        assert userData == fields;
      }
      assert userData == ProfileLines(Fields());
      var content := "";
      for k := 0 to |userData|
        invariant content == Printed(userData[..k])
        invariant disk.files == old(disk.files)
      {
        PrintedAppend(userData[..k], userData[k]);
        assert userData[..k + 1] == userData[..k] + [userData[k]];
        content := content + userData[k] + "\n";
      }
      assert userData[..|userData|] == userData;
      disk.files := disk.files[ProfileFile := content];
    }

    /** The save button: the profile is written only when validation accepts the form. */
    method SaveClicked(disk: Disk, parseDouble: string -> Option<real>) returns (verdict: Verdict)
      modifies disk
      ensures verdict == Validate(Fields(), parseDouble)
      ensures verdict == Accepted ==> disk.files == old(disk.files)[ProfileFile := Printed(ProfileLines(Fields()))]
      ensures verdict != Accepted ==> disk.files == old(disk.files)
    {
      verdict := Validate(Fields(), parseDouble);
      if verdict == Accepted {
        SaveUserProfile(disk);
      }
    }

    /** resetFields: empties the four fields and clears the level selection. */
    method ResetFields()
      modifies this
      ensures Fields() == EmptyFields
    {
      firstName := "";
      lastName := "";
      age := "";
      weight := "";
      level := None;
    }

    /**
     * loadUserData: reads every line of the profile file, then sets the
     * fields from lines 0..3 and selects the level named by line 4. A missing
     * file changes nothing; a file of fewer than five lines sets the fields it
     * has lines for and then fails.
     */
    method LoadUserData(disk: Disk) returns (outcome: ProfileLoadOutcome)
      modifies this
      ensures ProfileFile !in disk.files ==> outcome == ProfileMissing && Fields() == old(Fields())
      ensures ProfileFile in disk.files ==>
                var lines := ReadLines(Scanner, disk.files[ProfileFile]);
                && outcome == (if |lines| < 5 then ProfileTooShort else ProfileLoaded)
                && Fields() == AfterLoad(lines, old(Fields()))
    {
      if ProfileFile !in disk.files {
        return ProfileMissing;
      }
      ghost var lines := ReadLines(Scanner, disk.files[ProfileFile]);
      var rest := disk.files[ProfileFile];
      var userData: seq<string> := [];
      while rest != []
        invariant userData + ReadLines(Scanner, rest) == lines
        decreases |rest|
      {
        var next := TakeLine(Scanner, rest);
        userData := userData + [next.0];
        rest := next.1;
      }
      assert userData == lines;
      if |userData| <= 0 {
        return ProfileTooShort;
      }
      firstName := userData[0];
      if |userData| <= 1 {
        return ProfileTooShort;
      }
      lastName := userData[1];
      if |userData| <= 2 {
        return ProfileTooShort;
      }
      age := userData[2];
      if |userData| <= 3 {
        return ProfileTooShort;
      }
      weight := userData[3];
      if |userData| <= 4 {
        return ProfileTooShort;
      }
      var selected := LevelOfLabel(userData[4]);
      if selected.Some? {
        level := selected;
      }
      outcome := ProfileLoaded;
    }
  }

  /** The label of a level holds no line terminator. */
  lemma LabelHasNoBreak(level: Level)
    ensures HasNoLineBreak(Scanner, Label(level))
  {
  }

  /**
   * Load after save: when a level is selected and no trimmed field holds a
   * line terminator, loading the saved file gives the trimmed fields and the
   * same level, whatever the form held before.
   */
  lemma ProfileRoundTrip(f: ProfileFields, before: ProfileFields)
    requires f.level.Some?
    requires HasNoLineBreak(Scanner, Trim(f.firstName)) && HasNoLineBreak(Scanner, Trim(f.lastName))
    requires HasNoLineBreak(Scanner, Trim(f.age)) && HasNoLineBreak(Scanner, Trim(f.weight))
    ensures ReadLines(Scanner, Printed(ProfileLines(f))) == ProfileLines(f)
    ensures AfterLoad(ProfileLines(f), before)
            == ProfileFields(Trim(f.firstName), Trim(f.lastName), Trim(f.age), Trim(f.weight), f.level)
  {
    LabelHasNoBreak(f.level.value);
    var lines := ProfileLines(f);
    assert forall i :: 0 <= i < |lines| ==> HasNoLineBreak(Scanner, lines[i]);
    ReadPrinted(Scanner, lines);
    LevelOfLabelIsInverse(Label(f.level.value), f.level.value);
  }

  /** An accepted form always has a level, so what it saves loads back in full. */
  lemma AcceptedProfileRoundTrip(f: ProfileFields, parseDouble: string -> Option<real>, before: ProfileFields)
    requires Validate(f, parseDouble) == Accepted
    requires HasNoLineBreak(Scanner, Trim(f.firstName)) && HasNoLineBreak(Scanner, Trim(f.lastName))
    requires HasNoLineBreak(Scanner, Trim(f.age)) && HasNoLineBreak(Scanner, Trim(f.weight))
    ensures |ProfileLines(f)| == 5
    ensures AfterLoad(ReadLines(Scanner, Printed(ProfileLines(f))), before)
            == ProfileFields(Trim(f.firstName), Trim(f.lastName), Trim(f.age), Trim(f.weight), f.level)
  {
    AcceptedHasLevel(f, parseDouble);
    ProfileRoundTrip(f, before);
  }

  /** Saving with no level selected writes four lines, and loading them fails after setting the fields. */
  lemma ProfileWithoutLevelFailsToLoad(f: ProfileFields, before: ProfileFields)
    requires f.level.None?
    requires HasNoLineBreak(Scanner, Trim(f.firstName)) && HasNoLineBreak(Scanner, Trim(f.lastName))
    requires HasNoLineBreak(Scanner, Trim(f.age)) && HasNoLineBreak(Scanner, Trim(f.weight))
    ensures |ReadLines(Scanner, Printed(ProfileLines(f)))| == 4
    ensures AfterLoad(ReadLines(Scanner, Printed(ProfileLines(f))), before)
            == ProfileFields(Trim(f.firstName), Trim(f.lastName), Trim(f.age), Trim(f.weight), before.level)
  {
    var lines := ProfileLines(f);
    assert forall i :: 0 <= i < |lines| ==> HasNoLineBreak(Scanner, lines[i]);
    ReadPrinted(Scanner, lines);
  }
}
