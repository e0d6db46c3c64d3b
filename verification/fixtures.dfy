/**
  The six built-in rule blocks of the clean-code and Python rule lists, used
  as concrete instances of the model.
 */
module Fixtures {
  import opened Options
  import opened Strings
  import opened Rules
  import opened RuleEditor

  const Martin: Author := Author("Robert C. Martin", "http://cleancoder.com/products", "")

  const SolidTitle: string := "SOLID Principles"
  const SolidSlug: string := "solid-principles"
  const FunctionDesignTitle: string := "Function Design"
  const FunctionDesignSlug: string := "function-design"
  const NamingConventionsTitle: string := "Naming Conventions"
  const NamingConventionsSlug: string := "naming-conventions"
  const ZenOfPythonTitle: string := "Zen of Python"
  const ZenOfPythonSlug: string := "zen-of-python"
  const PythonStyleGuideTitle: string := "Python Style Guide"
  const PythonStyleGuideSlug: string := "python-style-guide"
  const PythonBestPracticesTitle: string := "Python Best Practices"
  const PythonBestPracticesSlug: string := "python-best-practices"

  const SolidContent: string := "Single Responsibility, Open-Closed, Liskov Substitution, Interface Segregation, Dependency Inversion"
  const SolidSource: string := "https://blog.cleancoder.com/uncle-bob/2020/10/18/Solid-Relevance.html"
  const FunctionDesignContent: string := "Functions should be small, do one thing, have no side effects, use descriptive names, stay at one level of abstraction"
  const FunctionDesignSource: string := "https://github.com/ryanmcdermott/clean-code-javascript#functions"
  const NamingConventionsContent: string := "Use meaningful and pronounceable names, avoid prefixes, use nouns for classes and verbs for methods, be consistent"
  const NamingConventionsSource: string := "https://github.com/ryanmcdermott/clean-code-javascript#variables"
  const ZenOfPythonContent: string := "Beautiful is better than ugly, Explicit is better than implicit, Simple is better than complex, Flat is better than nested, Readability counts"
  const ZenOfPythonSource: string := "https://peps.python.org/pep-0020/"
  const PythonStyleGuideContent: string := "Use 4 spaces for indentation, 79 characters line limit, separate functions and classes with blank lines, organize imports properly, follow PEP 8 naming conventions"
  const PythonStyleGuideSource: string := "https://peps.python.org/pep-0008/"
  const PythonBestPracticesContent: string := "Use virtual environments, type hints, docstrings, context managers, prefer exceptions over error codes, follow EAFP principle"
  const PythonBestPracticesSource: string := "https://docs.python-guide.org/"

  function Solid(): RuleBlock {
    RuleBlock(Rule(SolidTitle, SolidSlug, SolidContent,
                   ["clean-code", "principles", "solid"], Martin),
              Must, Some(SolidSource))
  }

  function FunctionDesign(): RuleBlock {
    RuleBlock(Rule(FunctionDesignTitle, FunctionDesignSlug, FunctionDesignContent,
                   ["clean-code", "function", "design"], Martin),
              Must, Some(FunctionDesignSource))
  }

  function NamingConventions(): RuleBlock {
    RuleBlock(Rule(NamingConventionsTitle, NamingConventionsSlug, NamingConventionsContent,
                   ["clean-code", "naming", "conventions"], Martin),
              Should, Some(NamingConventionsSource))
  }

  function ZenOfPython(): RuleBlock {
    RuleBlock(Rule(ZenOfPythonTitle, ZenOfPythonSlug, ZenOfPythonContent,
                   ["python", "principles", "zen"],
                   Author("Tim Peters", "https://peps.python.org/pep-0020/", "")),
              Must, Some(ZenOfPythonSource))
  }

  function PythonStyleGuide(): RuleBlock {
    RuleBlock(Rule(PythonStyleGuideTitle, PythonStyleGuideSlug, PythonStyleGuideContent,
                   ["python", "style", "pep8"],
                   Author("Guido van Rossum", "https://peps.python.org/pep-0008/", "")),
              Should, Some(PythonStyleGuideSource))
  }

  function PythonBestPractices(): RuleBlock {
    RuleBlock(Rule(PythonBestPracticesTitle, PythonBestPracticesSlug, PythonBestPracticesContent,
                   ["python", "best-practices", "modern"],
                   Author("Kenneth Reitz", "https://docs.python-guide.org/", "")),
              Should, Some(PythonBestPracticesSource))
  }

  /** The slug of a title of words without white space, separated by single
      spaces, is the words lower-cased and joined by `-`; `ls` spells out the
      lower-cased words. */
  lemma SlugFromWords(title: string, slug: string, ws: seq<string>, ls: seq<string>)
    requires forall i | 0 <= i < |ws| :: ws[i] != "" && NoSpace(ws[i])
    requires |ls| == |ws| && forall i | 0 <= i < |ws| :: ls[i] == Lower(ws[i])
    requires title == Join(ws, " ") && slug == Join(ls, "-")
    ensures DeriveSlug(title) == slug
  {
    assert LowerAll(ws) == ls;
    WordsSlug(ws);
  }

  /** Every clean-code rule's slug is the one the editor derives from its title. */
  lemma CleanCodeSlugsDerived()
    ensures DeriveSlug(Solid().rule.title) == Solid().rule.slug
    ensures DeriveSlug(FunctionDesign().rule.title) == FunctionDesign().rule.slug
    ensures DeriveSlug(NamingConventions().rule.title) == NamingConventions().rule.slug
  {
    SolidSlugDerived();
    FunctionDesignSlugDerived();
    NamingConventionsSlugDerived();
  }

  /** Every Python rule's slug is the one the editor derives from its title. */
  lemma PythonSlugsDerived()
    ensures DeriveSlug(ZenOfPython().rule.title) == ZenOfPython().rule.slug
    ensures DeriveSlug(PythonStyleGuide().rule.title) == PythonStyleGuide().rule.slug
    ensures DeriveSlug(PythonBestPractices().rule.title) == PythonBestPractices().rule.slug
  {
    ZenOfPythonSlugDerived();
    PythonStyleGuideSlugDerived();
    PythonBestPracticesSlugDerived();
  }

  /** "SOLID Principles": the title and the slug spelled from its words. */
  lemma SolidSpelled()
    ensures SolidTitle == Join(["SOLID", "Principles"], " ")
    ensures SolidSlug == Join(["solid", "principles"], "-")
  {
  }

  lemma SolidLowered()
    ensures Lower("SOLID") == "solid" && Lower("Principles") == "principles"
  {
  }

  lemma SolidSlugDerived()
    ensures DeriveSlug(SolidTitle) == SolidSlug
  {
    SolidSpelled();
    SolidLowered();
    SlugFromWords(SolidTitle, SolidSlug, ["SOLID", "Principles"], ["solid", "principles"]);
  }

  /** "Function Design": the title and the slug spelled from its words. */
  lemma FunctionDesignSpelled()
    ensures FunctionDesignTitle == Join(["Function", "Design"], " ")
    ensures FunctionDesignSlug == Join(["function", "design"], "-")
  {
  }

  lemma FunctionDesignLowered()
    ensures Lower("Function") == "function" && Lower("Design") == "design"
  {
  }

  lemma FunctionDesignSlugDerived()
    ensures DeriveSlug(FunctionDesignTitle) == FunctionDesignSlug
  {
    FunctionDesignSpelled();
    FunctionDesignLowered();
    SlugFromWords(FunctionDesignTitle, FunctionDesignSlug, ["Function", "Design"], ["function", "design"]);
  }

  /** "Naming Conventions": the title and the slug spelled from its words. */
  lemma NamingConventionsSpelled()
    ensures NamingConventionsTitle == Join(["Naming", "Conventions"], " ")
    ensures NamingConventionsSlug == Join(["naming", "conventions"], "-")
  {
  }

  lemma NamingConventionsLowered()
    ensures Lower("Naming") == "naming" && Lower("Conventions") == "conventions"
  {
  }

  lemma NamingConventionsSlugDerived()
    ensures DeriveSlug(NamingConventionsTitle) == NamingConventionsSlug
  {
    NamingConventionsSpelled();
    NamingConventionsLowered();
    SlugFromWords(NamingConventionsTitle, NamingConventionsSlug, ["Naming", "Conventions"], ["naming", "conventions"]);
  }

  /** "Zen of Python": the title and the slug spelled from its words. */
  lemma ZenOfPythonSpelled()
    ensures ZenOfPythonTitle == Join(["Zen", "of", "Python"], " ")
    ensures ZenOfPythonSlug == Join(["zen", "of", "python"], "-")
  {
  }

  lemma ZenOfPythonLowered()
    ensures Lower("Zen") == "zen" && Lower("of") == "of" && Lower("Python") == "python"
  {
  }

  lemma ZenOfPythonSlugDerived()
    ensures DeriveSlug(ZenOfPythonTitle) == ZenOfPythonSlug
  {
    ZenOfPythonSpelled();
    ZenOfPythonLowered();
    SlugFromWords(ZenOfPythonTitle, ZenOfPythonSlug, ["Zen", "of", "Python"], ["zen", "of", "python"]);
  }

  /** "Python Style Guide": the title and the slug spelled from its words. */
  lemma PythonStyleGuideSpelled()
    ensures PythonStyleGuideTitle == Join(["Python", "Style", "Guide"], " ")
    ensures PythonStyleGuideSlug == Join(["python", "style", "guide"], "-")
  {
  }

  lemma PythonStyleGuideLowered()
    ensures Lower("Python") == "python" && Lower("Style") == "style" && Lower("Guide") == "guide"
  {
  }

  lemma PythonStyleGuideSlugDerived()
    ensures DeriveSlug(PythonStyleGuideTitle) == PythonStyleGuideSlug
  {
    PythonStyleGuideSpelled();
    PythonStyleGuideLowered();
    SlugFromWords(PythonStyleGuideTitle, PythonStyleGuideSlug, ["Python", "Style", "Guide"], ["python", "style", "guide"]);
  }

  /** "Python Best Practices": the title and the slug spelled from its words. */
  lemma PythonBestPracticesSpelled()
    ensures PythonBestPracticesTitle == Join(["Python", "Best", "Practices"], " ")
    ensures PythonBestPracticesSlug == Join(["python", "best", "practices"], "-")
  {
  }

  lemma PythonBestPracticesLowered()
    ensures Lower("Python") == "python" && Lower("Best") == "best" && Lower("Practices") == "practices"
  {
  }

  lemma PythonBestPracticesSlugDerived()
    ensures DeriveSlug(PythonBestPracticesTitle) == PythonBestPracticesSlug
  {
    PythonBestPracticesSpelled();
    PythonBestPracticesLowered();
    SlugFromWords(PythonBestPracticesTitle, PythonBestPracticesSlug, ["Python", "Best", "Practices"], ["python", "best", "practices"]);
  }
}
