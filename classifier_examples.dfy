/** The classifier on a few names. Only the facts a rule needs are established about
    each lower-cased name; `Classifier.AutomatedIff` then turns the plain rules into
    the verdict of the source's pattern list. */
module ClassifierExamples {
  import opened PyStr
  import opened Classifier

  /** A dependency bot is automated. */
  lemma ExampleDependabot(name: string)
    requires name == "dependabot[bot]"
    ensures IsAutomated(name)
  {
    DependabotFacts(name);
    AutomatedIff(name);
  }

  lemma DependabotFacts(name: string)
    requires name == "dependabot[bot]"
    ensures Automated(name)
  {
    LowerStarts(name, "dependabot");
    var l := Lower(name);
    assert l[7..][..3] == l[..10][7..] == "bot";
    OnFirstLineAt(l, "bot", 7);
  }

  /** So is anyone whose name starts with "ci", because the pattern `ci.*` matches at
      the start of the name. */
  lemma ExampleCindy(name: string)
    requires name == "Cindy"
    ensures IsAutomated(name)
  {
    CindyFacts(name);
    AutomatedIff(name);
  }

  lemma CindyFacts(name: string)
    requires name == "Cindy"
    ensures Automated(name)
  {
    assert LowerChar(name[0]) == 'c' && LowerChar(name[1]) == 'i';
    LowerStarts(name, "ci");
    assert PlainRules(Lower(name));
  }

  /** And a bare number. */
  lemma ExampleNumber(name: string)
    requires name == "42"
    ensures IsAutomated(name)
  {
    assert IsDigit(name[0]) && IsDigit(name[1]);
    NumberFacts(name);
    AutomatedIff(name);
  }

  /** Any name made of digits only. */
  lemma NumberFacts(name: string)
    requires name != [] && forall i :: 0 <= i < |name| ==> IsDigit(name[i])
    ensures Automated(name)
  {
    assert !IsSpace(name[0]) && !IsSpace(name[|name| - 1]);
    StripPadded("", name);
    assert "" + name == name;
    assert DigitsOnly(Strip(name));
  }

  /** A person is human. */
  lemma ExampleJane(name: string)
    requires name == "Jane Doe"
    ensures !IsAutomated(name)
  {
    JaneFacts(name);
    AutomatedIff(name);
  }

  lemma JaneFacts(name: string)
    requires name == "Jane Doe"
    ensures !Automated(name)
  {
    JaneRules(name);
    NoDigits(name);
  }

  lemma JaneRules(name: string)
    requires name == "Jane Doe"
    ensures !PlainRules(Lower(name))
  {
    JaneLower(name);
    NoRule(Lower(name), 't', 'p');
  }


  /** So is a name that only contains "renovate": `renovate` has to match at the start. */
  lemma ExampleRenovate(name: string)
    requires name == "xrenovate"
    ensures !IsAutomated(name)
  {
    RenovateFacts(name);
    AutomatedIff(name);
  }

  lemma RenovateFacts(name: string)
    requires name == "xrenovate"
    ensures !Automated(name)
  {
    RenovateRules(name);
    NoDigits(name);
  }

  lemma RenovateRules(name: string)
    requires name == "xrenovate"
    ensures !PlainRules(Lower(name))
  {
    RenovateLower(name);
    NoRule(Lower(name), 'u', 'd');
  }


  /** A name that starts with a digit but has letters after it is no bare number. */
  lemma ExampleChan(name: string)
    requires name == "4Chan_user"
    ensures !IsAutomated(name)
  {
    ChanFacts(name);
    AutomatedIff(name);
  }

  lemma ChanFacts(name: string)
    requires name == "4Chan_user"
    ensures !Automated(name)
  {
    ChanRules(name);
    NotNumber(name, 1);
  }

  lemma ChanRules(name: string)
    requires name == "4Chan_user"
    ensures !PlainRules(Lower(name))
  {
    ChanLower(name);
    NoRule(Lower(name), 't', 'd');
  }


  lemma JaneLower(name: string)
    requires name == "Jane Doe"
    ensures Lower(name) == "jane doe"
  {
    LowerOf(name, "jane doe");
  }

  lemma RenovateLower(name: string)
    requires name == "xrenovate"
    ensures Lower(name) == "xrenovate"
  {
    LowerOf(name, "xrenovate");
  }

  lemma ChanLower(name: string)
    requires name == "4Chan_user"
    ensures Lower(name) == "4chan_user"
  {
    LowerOf(name, "4chan_user");
  }

  /** `name.lower()` starts with `w`. */
  lemma LowerStarts(name: string, w: string)
    requires |w| <= |name| && forall i :: 0 <= i < |w| ==> LowerChar(name[i]) == w[i]
    ensures StartsWith(Lower(name), w)
  {
    assert Lower(name)[..|w|] == w;
  }

  /** `name.lower()` of a given name. */
  lemma LowerOf(name: string, l: string)
    requires |name| == |l| && forall i :: 0 <= i < |name| ==> LowerChar(name[i]) == l[i]
    ensures Lower(name) == l
  {
  }

  /** A name without spaces that holds a non-digit is no bare number. */
  lemma NotNumber(name: string, k: nat)
    requires forall i :: 0 <= i < |name| ==> !IsSpace(name[i])
    requires k < |name| && !IsDigit(name[k])
    ensures !DigitsOnly(Strip(name))
  {
    assert Strip(name) == name;
  }

  /** A name meets none of the plain rules when it has no "b", lacks a letter `u` of
      "automation" and a letter `v` of "deploy", and starts with none of the letters the
      prefixes start with. */
  lemma NoRule(s: string, u: char, v: char)
    requires s != [] && s[0] !in "acdgrsw"
    requires 'b' !in s && u in "automation" && u !in s && v in "deploy" && v !in s
    ensures !PlainRules(s)
  {
    LackedChar(s, "bot", 'b');
    LackedChar(s, "automation", u);
    LackedChar(s, "deploy", v);
    forall w | w in ["auto", "ci", "github-actions", "renovate", "greenkeeper", "codecov",
                     "snyk", "whitesource", "dynamic"]
      ensures !StartsWith(s, w)
    {
      assert w[0] in "acdgrsw";
    }
  }
}
