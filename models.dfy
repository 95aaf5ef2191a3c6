/**
 * Domain models: creator identifiers, CISAC creator-role codes and the
 * grouped musical work.
 */
module Models {
  import opened Wrappers
  import opened Json
  import Text

  /** An unsigned 64-bit integer. */
  type U64 = n: int | 0 <= n < 0x1_0000_0000_0000_0000

  /** An unsigned 16-bit integer. */
  type U16 = n: int | 0 <= n < 0x1_0000

  /** A creator's identifier: an IPI number, an ISNI, or both. */
  datatype PartyId =
    | Ipi(ipi: U64)
    | Isni(isni: string)
    | Both(ipi: U64, isni: string)
  {
    /** `PartyId::ipi`. */
    function IpiOf(): (r: Option<U64>)
      ensures r.Some? <==> !Isni?
      ensures r.Some? ==> r.value == ipi
    {
      match this
      case Ipi(i) => Some(i)
      case Both(i, _) => Some(i)
      case Isni(_) => None
    }

    /** `PartyId::isni`. */
    function IsniOf(): (r: Option<string>)
      ensures r.Some? <==> !Ipi?
      ensures r.Some? ==> r.value == isni
    {
      match this
      case Isni(s) => Some(s)
      case Both(_, s) => Some(s)
      case Ipi(_) => None
    }
  }

  /**
   * `PartyId::from_optional`: Both, Ipi or Isni according to which
   * identifiers are given, nothing when neither is; the accessors give the
   * inputs back.
   */
  function FromOptional(ipi: Option<U64>, isni: Option<string>): (r: Option<PartyId>)
    ensures r.None? <==> ipi.None? && isni.None?
    ensures r.Some? ==> r.value.IpiOf() == ipi && r.value.IsniOf() == isni
    ensures r.Some? ==> (r.value.Both? <==> ipi.Some? && isni.Some?)
  {
    match (ipi, isni)
    case (Some(i), Some(s)) => Some(Both(i, s))
    case (Some(i), None) => Some(Ipi(i))
    case (None, Some(s)) => Some(Isni(s))
    case (None, None) => None
  }

  /** Every identifier is rebuilt by `from_optional` from its own parts. */
  lemma FromOptionalOfParts(id: PartyId)
    ensures FromOptional(id.IpiOf(), id.IsniOf()) == Some(id)
  {
  }

  // ---------------------------------------------------------------------------
  // Creator roles
  // ---------------------------------------------------------------------------

  datatype CreatorRole =
    | Composer | Author | ComposerAuthor | Arranger | Adapter | Translator
    | SubAuthor | SubArranger | Publisher | OriginalPublisher | SubPublisher

  /** `n` is one of the spellings `from_code` accepts for `role`, its CISAC code first. */
  predicate Spells(n: string, role: CreatorRole) {
    match role
    case Composer => n == "C" || n == "COMPOSER" || n == "COMPOSITEUR"
    case Author => n == "A" || n == "AUTHOR" || n == "AUTEUR" || n == "LYRICIST" || n == "PAROLIER"
    case ComposerAuthor => n == "CA" || n == "COMPOSER_AUTHOR" || n == "AUTEUR-COMPOSITEUR"
    case Arranger => n == "AR" || n == "ARRANGER" || n == "ARRANGEUR"
    case Adapter => n == "AD" || n == "ADAPTER" || n == "ADAPTATEUR"
    case Translator => n == "TR" || n == "TRANSLATOR" || n == "TRADUCTEUR"
    case SubAuthor => n == "SA" || n == "SUB_AUTHOR" || n == "SOUS-AUTEUR"
    case SubArranger => n == "SR" || n == "SUB_ARRANGER" || n == "SOUS-ARRANGEUR"
    case Publisher => n == "E" || n == "PUBLISHER" || n == "EDITEUR"
    case OriginalPublisher => n == "SE" || n == "ORIGINAL_PUBLISHER" || n == "EDITEUR_ORIGINAL"
    case SubPublisher => n == "ES" || n == "SUB_PUBLISHER" || n == "SOUS-EDITEUR"
  }

  /** `CreatorRole::to_code`: the CISAC code. */
  function ToCode(r: CreatorRole): (code: string)
    ensures Spells(code, r) && 1 <= |code| <= 2
  {
    match r
    case Composer => "C"
    case Author => "A"
    case ComposerAuthor => "CA"
    case Arranger => "AR"
    case Adapter => "AD"
    case Translator => "TR"
    case SubAuthor => "SA"
    case SubArranger => "SR"
    case Publisher => "E"
    case OriginalPublisher => "SE"
    case SubPublisher => "ES"
  }

  /** The role a normalised spelling names: the first arm of `from_code` that lists it. */
  function RoleOfSpelling(n: string): (r: Option<CreatorRole>)
    ensures r.Some? ==> Spells(n, r.value)
    ensures r.None? ==> forall role :: !Spells(n, role)
  {
    if Spells(n, Composer) then Some(Composer)
    else if Spells(n, Author) then Some(Author)
    else if Spells(n, ComposerAuthor) then Some(ComposerAuthor)
    else if Spells(n, Arranger) then Some(Arranger)
    else if Spells(n, Adapter) then Some(Adapter)
    else if Spells(n, Translator) then Some(Translator)
    else if Spells(n, SubAuthor) then Some(SubAuthor)
    else if Spells(n, SubArranger) then Some(SubArranger)
    else if Spells(n, Publisher) then Some(Publisher)
    else if Spells(n, OriginalPublisher) then Some(OriginalPublisher)
    else if Spells(n, SubPublisher) then Some(SubPublisher)
    else None
  }

  /** The form `from_code` compares: trimmed and uppercased. */
  function Normalize(code: string): string {
    Text.ToUpper(Text.Trim(code))
  }

  /**
   * `CreatorRole::from_code`: the role one of the listed spellings names,
   * compared after trimming and uppercasing; nothing for any other code.
   */
  function FromCode(code: string): (r: Option<CreatorRole>)
    ensures r == RoleOfSpelling(Normalize(code))
    ensures r.Some? ==> Spells(Normalize(code), r.value)
    ensures r.None? ==> forall role :: !Spells(Normalize(code), role)
  {
    RoleOfSpelling(Normalize(code))
  }

  /** Text of uppercase letters, '_' and '-' is already in normal form. */
  lemma NormalizeKeepsCode(code: string)
    requires code != []
    requires forall i :: 0 <= i < |code| ==> Text.IsAsciiUpper(code[i]) || code[i] == '_' || code[i] == '-'
    ensures Normalize(code) == code
  {
    assert Text.TrimStart(code) == code;
    assert Text.TrimEnd(code) == code;
  }

  /** Each role's own code names that role. */
  lemma RoleOfOwnCode(r: CreatorRole)
    ensures RoleOfSpelling(ToCode(r)) == Some(r)
  {
    match r
    case Composer =>
    case Author =>
    case ComposerAuthor =>
    case Arranger =>
    case Adapter =>
    case Translator =>
    case SubAuthor =>
    case SubArranger =>
    case Publisher =>
    case OriginalPublisher =>
    case SubPublisher =>
  }

  /** `from_code` reads back every role's own code. */
  lemma FromCodeOfToCode(r: CreatorRole)
    ensures FromCode(ToCode(r)) == Some(r)
  {
    NormalizeKeepsCode(ToCode(r));
    RoleOfOwnCode(r);
  }

  /** Case does not matter to `from_code`. */
  lemma FromCodeIgnoresCase(code: string)
    ensures FromCode(Text.ToLower(code)) == FromCode(code)
  {
    Text.TrimToLower(code);
    Text.ToUpperOfToLower(Text.Trim(code));
  }

  /** A spelling outside the table names no role. */
  lemma FromCodeRejectsUnknown()
    ensures FromCode("INVALID") == None
  {
    NormalizeKeepsCode("INVALID");
    InvalidSpelling();
  }

  lemma InvalidSpelling()
    ensures RoleOfSpelling("INVALID") == None
  {
    var n := "INVALID";
    assert |n| == 7 && n[0] == 'I';
  }

  // ---------------------------------------------------------------------------
  // The grouped work
  // ---------------------------------------------------------------------------

  datatype MusicalWorkType = Original | Arrangement | Composite | Excerpt | Unspecified

  /** A creator of a work; `share` is a percentage. */
  datatype Creator = Creator(id: PartyId, role: CreatorRole, name: Option<string>, share: Option<real>)

  /** A musical work with all of its creators. */
  class GroupedWork {
    var iswc: string
    var title: string
    var alternativeTitles: seq<string>
    var creators: seq<Creator>
    var participants: seq<Value>
    var workType: MusicalWorkType
    var creationYear: Option<U16>
    var genre: Option<string>
    var instrumental: Option<bool>

    /** `GroupedWork::new`: the given code and title, nothing else yet. */
    constructor(iswc: string, title: string)
      ensures this.iswc == iswc && this.title == title
      ensures alternativeTitles == [] && creators == [] && participants == []
      ensures workType == Original
      ensures creationYear.None? && genre.None? && instrumental.None?
    {
      this.iswc := iswc;
      this.title := title;
      alternativeTitles := [];
      creators := [];
      participants := [];
      workType := Original;
      creationYear := None;
      genre := None;
      instrumental := None;
    }

    /** `GroupedWork::add_creator`: `c` goes at the end; nothing else changes. */
    method AddCreator(c: Creator)
      modifies this`creators
      ensures creators == old(creators) + [c]
    {
      creators := creators + [c];
    }
  }
}
