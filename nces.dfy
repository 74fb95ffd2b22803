/** The naming rules of utils/nces.py: an `NCES` object is fixed by its
    school year and school type, and every file name, URL and path it holds
    is computed once from those two. */
module NcesNaming {
  import opened Sql
  import opened Text

  datatype SchoolType = PublicSch | PrivateSch | PostsecSch

  /** The code in the EDGE file names. */
  function Code(t: SchoolType): string
  {
    match t
    case PublicSch => "PUBLICSCH"
    case PrivateSch => "PRIVATESCH"
    case PostsecSch => "POSTSECSCH"
  }

  /** The name a caller passes for each type, in lower case. */
  function TypeName(t: SchoolType): string
  {
    match t
    case PublicSch => "public"
    case PrivateSch => "private"
    case PostsecSch => "postsecondary"
  }

  /** `_convert_school_type`: the argument is matched after `lower()`;
      anything else raises `ValueError`. */
  function ConvertSchoolType(schoolType: string): (r: Result<SchoolType, string>)
    ensures r.Ok? <==> exists t: SchoolType :: Lower(schoolType) == TypeName(t)
    ensures r.Ok? ==> Lower(schoolType) == TypeName(r.value)
    ensures r.Err? ==> r.error == schoolType + " is not a valid school type."
  {
    var s := Lower(schoolType);
    if s == "public" then assert s == TypeName(PublicSch); Ok(PublicSch)
    else if s == "private" then assert s == TypeName(PrivateSch); Ok(PrivateSch)
    else if s == "postsecondary" then assert s == TypeName(PostsecSch); Ok(PostsecSch)
    else
      assert forall t: SchoolType :: s != TypeName(t);
      Err(schoolType + " is not a valid school type.")
  }

  /** Each type's name is accepted in any letter case, and gives only that
      type. */
  lemma ConvertSchoolTypeCases(t: SchoolType, s: string)
    requires Lower(s) == TypeName(t)
    ensures ConvertSchoolType(s) == Ok(t)
    ensures ConvertSchoolType(Upper(s)) == Ok(t)
  {
    LowerOfUpper(s);
  }

  /** Different types have different codes. */
  lemma CodeInjective(t: SchoolType, u: SchoolType)
    requires Code(t) == Code(u)
    ensures t == u
  {
    assert Code(t)[1] == Code(u)[1] && Code(t)[4] == Code(u)[4];
  }

  /** `year_abb`: the last three digits of the year and of the year after,
      each without zero padding. */
  function YearAbb(year: int): (r: string)
    ensures |r| >= 2
  {
    var yr := year % 1000;
    NatToString(yr) + NatToString(yr + 1)
  }

  /** For a year whose `year % 1000` has two digits below 99, `year_abb` is
      four digits: that number, then the next one. */
  lemma YearAbbDigits(year: int)
    requires 10 <= year % 1000 <= 98
    ensures |YearAbb(year)| == 4
    ensures ParseNat(YearAbb(year)[..2]) == year % 1000
    ensures ParseNat(YearAbb(year)[2..]) == year % 1000 + 1
  {
    var yr := year % 1000;
    TwoDigits(yr);
    TwoDigits(yr + 1);
    assert YearAbb(year)[..2] == NatToString(yr);
    assert YearAbb(year)[2..] == NatToString(yr + 1);
    ParseNatToString(yr);
    ParseNatToString(yr + 1);
  }

  /** For every year, `year_abb` is all decimal digits and splits into a
      rendering of `year % 1000` followed by one of the next number: each
      part reads back as its number. */
  lemma YearAbbSplit(year: int)
    ensures forall i :: 0 <= i < |YearAbb(year)| ==> IsDigit(YearAbb(year)[i])
    ensures exists k ::
      && 0 < k < |YearAbb(year)|
      && ParseNat(YearAbb(year)[..k]) == year % 1000
      && ParseNat(YearAbb(year)[k..]) == year % 1000 + 1
  {
    var yr := year % 1000;
    var a, b := NatToString(yr), NatToString(yr + 1);
    assert YearAbb(year)[..|a|] == a && YearAbb(year)[|a|..] == b;
    ParseNatToString(yr);
    ParseNatToString(yr + 1);
  }

  lemma TwoDigits(n: nat)
    requires 10 <= n <= 99
    ensures |NatToString(n)| == 2
  {
  }

  /** No zero padding: a year whose `year % 1000` is a single digit below 9
      gives a two-character `year_abb` (2005 gives "56", not "0506"). */
  lemma YearAbbUnpadded(year: int)
    requires year % 1000 <= 8
    ensures |YearAbb(year)| == 2
  {
  }

  const BaseUrl := "https://nces.ed.gov/programs/edge/data/"

  /** The fields of an `NCES` object. */
  datatype Nces = Nces(
    schoolType: SchoolType, year: int, yr: int, yearAbb: string,
    fileName: string, baseName: string, url: string, rawFileLoc: string,
    extractedLocation: string, excelFile: string, tableName: string)

  /** `_convert_extracted_location`: the private-school ZIP holds its files
      directly, so they are extracted into a folder of their own. */
  function ExtractedLocation(t: SchoolType, baseName: string): string
  {
    match t
    case PublicSch => ExtractedZips
    case PrivateSch => PathJoin(ExtractedZips, baseName)
    case PostsecSch => ExtractedZips
  }

  /** The fields `NCES.__init__` computes for a valid school type. */
  function NcesFields(t: SchoolType, year: int): (n: Nces)
    ensures n.schoolType == t && n.year == year
  {
    var yr := year % 1000;
    var abb := YearAbb(year);
    var file := "EDGE_GEOCODE_" + Code(t) + "_" + abb + ".zip";
    var base := DropLast(file, 4);
    Nces(t, year, yr, abb, file, base, BaseUrl + file, PathJoin(RawData, file),
         ExtractedLocation(t, base), PathJoin(PathJoin(ExtractedZips, base), base + ".xlsx"),
         if t != PostsecSch then "school" else "university")
  }

  /** `NCES.__init__`: an invalid school type is the `ValueError`, and a
      valid one fixes every field. */
  function NewNces(year: int, schoolType: string): (r: Result<Nces, string>)
    ensures r.Ok? <==> ConvertSchoolType(schoolType).Ok?
    ensures r.Ok? ==> r.value.schoolType == ConvertSchoolType(schoolType).value && r.value.year == year
    ensures r.Ok? ==> r.value == NcesFields(r.value.schoolType, year)
    ensures r.Err? ==> r.error == schoolType + " is not a valid school type."
  {
    match ConvertSchoolType(schoolType)
    case Err(e) => Err(e)
    case Ok(t) => Ok(NcesFields(t, year))
  }

  lemma YearAbbNoSlash(year: int)
    ensures NoSlash(YearAbb(year))
  {
  }

  /** `base_name` is the file name without ".zip", and neither holds a '/'. */
  lemma NcesBaseName(t: SchoolType, year: int)
    ensures var n := NcesFields(t, year);
      && n.baseName == "EDGE_GEOCODE_" + Code(t) + "_" + n.yearAbb
      && n.fileName == n.baseName + ".zip"
      && NoSlash(n.baseName) && n.baseName != ""
  {
    var n := NcesFields(t, year);
    var base := "EDGE_GEOCODE_" + Code(t) + "_" + n.yearAbb;
    DropLastOfSuffix(base, ".zip");
    YearAbbNoSlash(year);
    PrefixNoSlash(t);
    NoSlashConcat("EDGE_GEOCODE_" + Code(t) + "_", n.yearAbb);
  }

  lemma PrefixNoSlash(t: SchoolType)
    ensures NoSlash("EDGE_GEOCODE_" + Code(t) + "_")
  {
    match t
    case PublicSch =>
    case PrivateSch =>
    case PostsecSch =>
  }

  /** The URL and the download path of an `NCES` object. */
  lemma NcesUrl(t: SchoolType, year: int)
    ensures var n := NcesFields(t, year);
      && n.url == BaseUrl + n.fileName
      && n.rawFileLoc == RawData + "/" + n.fileName
  {
    var n := NcesFields(t, year);
    NcesBaseName(t, year);
    NoSlashConcat(n.baseName, ".zip");
    FolderNames();
    PathJoinPlain(RawData, n.fileName, "");
  }

  /** Where an `NCES` object's files are extracted to, and its Excel file. */
  lemma NcesFolders(t: SchoolType, year: int)
    ensures var n := NcesFields(t, year);
      && n.excelFile == ExtractedZips + "/" + n.baseName + "/" + (n.baseName + ".xlsx")
      && n.extractedLocation == (if t == PrivateSch then ExtractedZips + "/" + n.baseName else ExtractedZips)
  {
    var n := NcesFields(t, year);
    NcesBaseName(t, year);
    NoSlashConcat(n.baseName, ".xlsx");
    FolderNames();
    PathJoinPlain(ExtractedZips, n.baseName, n.baseName + ".xlsx");
  }

  /** `yr` is the year modulo 1000, and the table is "university" exactly
      for postsecondary institutions. */
  lemma NcesTable(t: SchoolType, year: int)
    ensures var n := NcesFields(t, year);
      && 0 <= n.yr < 1000 && n.yr == year % 1000
      && (n.tableName == "university" <==> t == PostsecSch)
      && (n.tableName == "school" <==> t != PostsecSch)
  {
  }
}
