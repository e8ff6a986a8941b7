/** The guest editor form (components/admin/guests/GuestForm.tsx): the slug
    it derives from the name as the name is typed, and the name / slug /
    auto-slug state that its input handlers and its effect update. */
module GuestForm {
  import opened Optional
  import opened Strings

  /** A character of the regular expression class \w. */
  predicate IsWordChar(c: char) { 'a' <= c <= 'z' || 'A' <= c <= 'Z' || '0' <= c <= '9' || c == '_' }

  /** A character `/[^\w\s-]/` matches. */
  predicate OutsideSlugAlphabet(c: char) { !(IsWordChar(c) || IsSpace(c) || c == '-') }

  /** A character a form slug may hold. */
  predicate IsFormSlugChar(c: char) { 'a' <= c <= 'z' || '0' <= c <= '9' || c == '_' || c == '-' }

  /** The effect's transform: lower-case, trim, drop every character that is
      not a word character, whitespace or hyphen, make each run of
      whitespace a hyphen, then each run of hyphens one hyphen. */
  function FormSlug(name: string): (r: string)
  {
    var cleaned := RemoveChars(Trim(Lower(name)), OutsideSlugAlphabet);
    var dashed := ReplaceRuns(cleaned, IsSpace, false);
    ReplaceRuns(dashed, IsHyphen, false)
  }

  /** Every character of s is a form slug character. */
  predicate AllFormSlugChars(s: string) {
    forall i :: 0 <= i < |s| ==> IsFormSlugChar(s[i])
  }

  /** Every character of s is a form slug character or whitespace. */
  predicate SlugCharsOrSpace(s: string) {
    forall i :: 0 <= i < |s| ==> IsFormSlugChar(s[i]) || IsSpace(s[i])
  }

  lemma FormSlugCharNotSpace(c: char)
    requires IsFormSlugChar(c)
    ensures !IsSpace(c) && !IsUpperAscii(c) && !OutsideSlugAlphabet(c)
  {
  }

  /** After the characters outside \w, \s and '-' are dropped from the
      trimmed lower case, what is left is a slug character or whitespace. */
  lemma CleanedChars(name: string)
    ensures SlugCharsOrSpace(RemoveChars(Trim(Lower(name)), OutsideSlugAlphabet))
  {
    var lowered := Lower(name);
    var trimmed := Trim(lowered);
    var cleaned := RemoveChars(trimmed, OutsideSlugAlphabet);
    forall i | 0 <= i < |cleaned| ensures IsFormSlugChar(cleaned[i]) || IsSpace(cleaned[i]) {
      var c := cleaned[i];
      assert c in trimmed;
      assert c in lowered;
      var j :| 0 <= j < |lowered| && lowered[j] == c;
      assert !IsUpperAscii(c);
      assert !OutsideSlugAlphabet(c);
    }
  }

  /** A form slug is lower-case, holds no whitespace, draws only on
      [a-z0-9_-] and has no two hyphens in a row. */
  lemma FormSlugShape(name: string)
    ensures AllFormSlugChars(FormSlug(name))
    ensures forall i :: 0 <= i < |FormSlug(name)| ==> !IsSpace(FormSlug(name)[i]) && !IsUpperAscii(FormSlug(name)[i])
    ensures NoDoubleHyphen(FormSlug(name))
  {
    var cleaned := RemoveChars(Trim(Lower(name)), OutsideSlugAlphabet);
    var dashed := ReplaceRuns(cleaned, IsSpace, false);
    var r := ReplaceRuns(dashed, IsHyphen, false);
    CleanedChars(name);
    DashedChars(cleaned);
    HyphenatedChars(dashed);
  }

  /** Whitespace runs become hyphens, so only slug characters are left. */
  lemma DashedChars(cleaned: string)
    requires SlugCharsOrSpace(cleaned)
    ensures AllFormSlugChars(ReplaceRuns(cleaned, IsSpace, false))
  {
    var dashed := ReplaceRuns(cleaned, IsSpace, false);
    forall i | 0 <= i < |dashed| ensures IsFormSlugChar(dashed[i]) {
      if dashed[i] != '-' {
        var j :| 0 <= j < |cleaned| && cleaned[j] == dashed[i];
      }
    }
  }

  /** Collapsing hyphen runs keeps a string of slug characters one. */
  lemma HyphenatedChars(dashed: string)
    requires AllFormSlugChars(dashed)
    ensures var r := ReplaceRuns(dashed, IsHyphen, false);
            && AllFormSlugChars(r) && NoDoubleHyphen(r)
            && forall i :: 0 <= i < |r| ==> !IsSpace(r[i]) && !IsUpperAscii(r[i])
  {
    var r := ReplaceRuns(dashed, IsHyphen, false);
    forall i | 0 <= i < |r| ensures IsFormSlugChar(r[i]) {
      if r[i] != '-' {
        var j :| 0 <= j < |dashed| && dashed[j] == r[i];
      }
    }
    NoSpaceIn(r);
    forall i | 0 <= i < |r| ensures !IsUpperAscii(r[i]) {
      FormSlugCharNotSpace(r[i]);
    }
    assert IsHyphen('-');
  }

  /** Running the transform over its own output gives that output back. */
  lemma FormSlugIdempotent(name: string)
    ensures FormSlug(FormSlug(name)) == FormSlug(name)
  {
    var y := FormSlug(name);
    FormSlugShape(name);
    FormSlugFixed(y);
  }

  /** A string of slug characters without double hyphens is left alone by
      every stage of the transform. */
  lemma FormSlugFixed(y: string)
    requires AllFormSlugChars(y) && NoDoubleHyphen(y)
    ensures FormSlug(y) == y
  {
    CleanStageFixed(y);
    NoSpaceIn(y);
    ReplaceRunsNone(y, IsSpace, false);
    ReplaceHyphenRunsNone(y, false);
  }

  lemma NoSpaceIn(y: string)
    requires AllFormSlugChars(y)
    ensures forall i :: 0 <= i < |y| ==> !IsSpace(y[i])
  {
    forall i | 0 <= i < |y| ensures !IsSpace(y[i]) {
      FormSlugCharNotSpace(y[i]);
    }
  }

  /** Lower-casing, trimming and dropping characters leave slug characters
      alone. */
  lemma CleanStageFixed(y: string)
    requires AllFormSlugChars(y)
    ensures RemoveChars(Trim(Lower(y)), OutsideSlugAlphabet) == y
  {
    forall i | 0 <= i < |y| ensures !IsUpperAscii(y[i]) && !OutsideSlugAlphabet(y[i]) {
      FormSlugCharNotSpace(y[i]);
    }
    LowerOfLower(y);
    TrimSlugChars(y);
  }

  lemma TrimSlugChars(y: string)
    requires AllFormSlugChars(y)
    ensures Trim(y) == y
  {
    if y != [] {
      FormSlugCharNotSpace(y[0]);
      FormSlugCharNotSpace(y[|y| - 1]);
    }
    TrimUnpadded(y);
  }

  /** The name and slug of the guest being edited. */
  datatype EditedGuest = EditedGuest(name: string, slug: string)

  /** The form's state. `autoSlug` says the slug follows the name. */
  class GuestFormState {
    var name: string
    var slug: string
    var autoSlug: bool

    /** While the slug follows the name, it is the name's form slug, unless
        the name is empty. */
    predicate Valid()
      reads this
    {
      autoSlug && name != [] ==> slug == FormSlug(name)
    }

    /** Mounting the form: a new guest starts empty with the slug following
        the name; an edited guest starts from its stored name and slug with
        the slug left alone. The effect then runs once. */
    constructor (guest: Option<EditedGuest>)
      ensures Valid()
      ensures autoSlug <==> guest.None?
      ensures guest.None? ==> name == [] && slug == []
      ensures guest.Some? ==> name == guest.value.name && slug == guest.value.slug
    {
      match guest {
        case None =>
          name, slug, autoSlug := [], [], true;
        case Some(g) =>
          name, slug, autoSlug := g.name, g.slug, false;
      }
      new;
      RunEffect();
    }

    /** The effect on [name, autoSlug]. */
    method RunEffect()
      modifies this`slug
      ensures slug == if autoSlug && name != [] then FormSlug(name) else old(slug)
    {
      if autoSlug && name != [] {
        slug := FormSlug(name);
      }
    }

    /** Typing in the name field, then the effect. */
    method OnNameChange(value: string)
      requires Valid()
      modifies this`name, this`slug
      ensures Valid()
      ensures name == value && autoSlug == old(autoSlug)
      ensures autoSlug && value != [] ==> slug == FormSlug(value)
      ensures !autoSlug || value == [] ==> slug == old(slug)
    {
      name := value;
      RunEffect();
    }

    /** Typing in the slug field: the slug is taken as typed and stops
        following the name for good. */
    method OnSlugChange(value: string)
      requires Valid()
      modifies this`slug, this`autoSlug
      ensures Valid()
      ensures slug == value && !autoSlug && name == old(name)
    {
      slug := value;
      autoSlug := false;
      RunEffect();
    }
  }
}
