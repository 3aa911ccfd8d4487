/** Concrete scenarios on the built-in fallback records of `loadFallbackData`. */
module Scenarios {
  import opened Common
  import opened Text
  import opened ArrayOps
  import opened Catalog
  import opened Search
  import opened Bookmarks

  const JavaScriptCourse := Course(1, "JavaScript for Beginners",
    "Learn the fundamentals of JavaScript programming from scratch. Perfect for complete beginners.",
    "programming", "beginner", "https://freecodecamp.org/javascript", "\U{1F4BB}",
    "FreeCodeCamp", "6 weeks", None)

  const DesignCourse := Course(2, "UI/UX Design Fundamentals",
    "Master the principles of user interface and user experience design.",
    "design", "beginner", "https://design.google", "\U{1F3A8}",
    "Google Design", "4 weeks", None)

  const MarketingCourse := Course(3, "Digital Marketing Basics",
    "Learn essential digital marketing strategies and tools for modern businesses.",
    "marketing", "beginner", "https://learndigital.withgoogle.com", "\U{1F4F1}",
    "Google Digital Garage", "3 weeks", None)

  const FrontendInternship := Internship(101, "Frontend Developer Intern",
    "Work with our development team on cutting-edge React applications.",
    "programming", "intermediate", "https://techstart.com/careers", "\U{1F4BB}",
    "TechStart Inc", "Remote", "3 months", true, None, None)

  const DesignInternship := Internship(102, "UX Design Intern",
    "Join our design team to create user-centered digital experiences.",
    "design", "beginner", "https://designco.com/internships", "\U{1F3A8}",
    "Design Co", "New York, NY", "4 months", true, None, None)

  const Fallback := Catalog([JavaScriptCourse, DesignCourse, MarketingCourse],
                            [FrontendInternship, DesignInternship])

  lemma DesignCourses()
    ensures Filter(Fallback.courses, Selects("", "design", "")) == [DesignCourse]
  {
    var p := Selects("", "design", "");
    assert Fallback.courses[1..] == [DesignCourse, MarketingCourse];
    assert [DesignCourse, MarketingCourse][1..] == [MarketingCourse];
    assert Filter([MarketingCourse], p) == [];
  }

  lemma DesignInternships()
    ensures Filter(Fallback.internships, Selects("", "design", "")) == [DesignInternship]
  {
    var p := Selects("", "design", "");
    assert Fallback.internships[1..] == [DesignInternship];
    assert [DesignInternship][1..] == [];
  }

  /** Choosing the "design" category with an empty text box lists only the
      design records, in catalog order. */
  lemma DesignCategoryScenario()
    ensures PerformSearch(Fallback, Query("", "design", "")) ==
            SearchResult([DesignCourse], [DesignInternship])
  {
    assert Term("") == "";
    DesignCourses();
    DesignInternships();
  }

  lemma ReactTerm()
    ensures Term("react") == "react"
  {
    assert Lower("react") == "react";
    TrimKeepsTrimmed("react");
  }

  lemma ReactRequirement()
    ensures ListHas(Some(["React", "CSS"]), "react")
  {
    assert Lower("React") == "react";
    assert OccursAt("react", "react", 0);
    var xs := ["React", "CSS"];
    assert (x => FieldHas(x, "react"))(xs[0]);
  }

  /** An internship whose fixed text fields are all too short to hold "react". */
  const BareInternship := Internship(101, "Dev", "", "", "", "", "", "Co", "NY", "", true, None, None)

  /** A lower-case term matches a requirement whatever its case, and the
      requirement list alone makes the match. */
  lemma RequirementScenario()
    ensures TextMatches(BareInternship.(requirements := Some(["React", "CSS"])), Term("react"))
    ensures !TextMatches(BareInternship, Term("react"))
  {
    ReactTerm();
    BareMissesReact();
    BareWithReactRequirement();
  }

  lemma ShortFieldMisses(field: string)
    requires |field| < 5
    ensures !FieldHas(field, "react")
  {
    assert |Lower(field)| == |field|;
  }

  lemma BareMissesReact()
    ensures !TextMatches(BareInternship, "react")
  {
    ShortFieldMisses("Dev");
    ShortFieldMisses("");
    ShortFieldMisses("Co");
    ShortFieldMisses("NY");
  }

  lemma BareWithReactRequirement()
    ensures TextMatches(BareInternship.(requirements := Some(["React", "CSS"])), "react")
  {
    ReactRequirement();
  }

  /** Saving a course on an empty list adds it; saving it again removes it. */
  lemma ToggleScenario(now1: string, now2: string)
    ensures Toggle([], Fallback, 1, "course", now1).outcome.Added?
    ensures |Toggle([], Fallback, 1, "course", now1).marks| == 1
    ensures Toggle(Toggle([], Fallback, 1, "course", now1).marks, Fallback, 1, "course", now2).outcome == Removed
    ensures Toggle(Toggle([], Fallback, 1, "course", now1).marks, Fallback, 1, "course", now2).marks == []
  {
    assert Fallback.courses[0].id == 1;
    var m := Toggle([], Fallback, 1, "course", now1).marks;
    assert Keyed(m[0], 1, "course");
  }

  /** Any type string other than "course" looks in the internships, and the
      entry keeps the string it was given. */
  lemma OtherTypeScenario(now: string)
    ensures Toggle([], Fallback, 101, "job", now).outcome == Added(Entry(FrontendInternship, "job", now))
  {
    assert Fallback.internships[0].id == 101;
  }
}
