/** The naming rules of utils/ipeds.py: an `IPEDS` object is fixed by a
    year, a table name and a table suffix, and its file name, URL and paths
    are computed once from them. Files after 2022 are named in upper case,
    earlier ones in lower case. */
module IpedsNaming {
  import opened Text

  const BaseUrl := "https://nces.ed.gov/ipeds/datacenter/data/"

  /** The fields of an `IPEDS` object. */
  datatype Ipeds = Ipeds(
    year: int, tableName: string, tableSuffix: string, combinedTableName: string,
    fileName: string, baseName: string, url: string, rawFileLoc: string,
    extractedLocation: string, csvFile: string)

  /** The published file name: upper case from 2023 on, lower case up to
      2022. */
  function FileName(year: int, tableName: string, tableSuffix: string): string
  {
    if year > 2022 then Upper(tableName) + IntToString(year) + Upper(tableSuffix) + ".zip"
    else Lower(tableName) + IntToString(year) + Lower(tableSuffix) + ".zip"
  }

  /** `IPEDS.__init__`. */
  function NewIpeds(year: int, tableName: string, tableSuffix: string): (r: Ipeds)
    ensures r.year == year && r.tableName == tableName && r.tableSuffix == tableSuffix
    ensures r.fileName == FileName(year, tableName, tableSuffix) == r.baseName + ".zip"
  {
    var combined := tableName + tableSuffix;
    var file := FileName(year, tableName, tableSuffix);
    var stem := if year > 2022 then Upper(tableName) + IntToString(year) + Upper(tableSuffix)
                else Lower(tableName) + IntToString(year) + Lower(tableSuffix);
    assert file == stem + ".zip";
    DropLastOfSuffix(stem, ".zip");
    var base := DropLast(file, 4);
    var extracted := PathJoin(ExtractedZips, combined);
    Ipeds(year, tableName, tableSuffix, combined, file, base, BaseUrl + file,
          PathJoin(RawData, file), extracted, PathJoin(extracted, base + ".csv"))
  }

  /** The case rule changes nothing but letter case: the two eras name the
      same table and year alike once lower-cased. */
  lemma FileNameCaseRule(year: int, tableName: string, tableSuffix: string)
    ensures Lower(FileName(year, tableName, tableSuffix)) ==
      Lower(tableName) + IntToString(year) + Lower(tableSuffix) + ".zip"
  {
    var y := IntToString(year);
    LowerDigits(y);
    assert Lower(".zip") == ".zip";
    var n, x := tableName, tableSuffix;
    if year > 2022 {
      LowerOfUpper(n);
      LowerOfUpper(x);
      n, x := Upper(n), Upper(x);
    } else {
      LowerIdempotent(n);
      LowerIdempotent(x);
      n, x := Lower(n), Lower(x);
    }
    assert FileName(year, tableName, tableSuffix) == n + y + x + ".zip";
    LowerConcat(n + y + x, ".zip");
    LowerConcat(n + y, x);
    LowerConcat(n, y);
  }

  /** `base_name` is the file name without ".zip"; with a slash-free table
      name and suffix it holds no '/'. */
  lemma IpedsBaseName(year: int, tableName: string, tableSuffix: string)
    requires NoSlash(tableName + tableSuffix)
    ensures var p := NewIpeds(year, tableName, tableSuffix);
      p.fileName == p.baseName + ".zip" && NoSlash(p.baseName)
  {
    var p := NewIpeds(year, tableName, tableSuffix);
    var n, x := if year > 2022 then Upper(tableName) else Lower(tableName), if year > 2022 then Upper(tableSuffix) else Lower(tableSuffix);
    var stem := n + IntToString(year) + x;
    assert p.fileName == stem + ".zip";
    DropLastOfSuffix(stem, ".zip");
    NoSlashConcat(tableName, tableSuffix);
    CaseKeepsNoSlash(tableName);
    CaseKeepsNoSlash(tableSuffix);
    NoSlashConcat(n, IntToString(year));
    NoSlashConcat(n + IntToString(year), x);
  }

  /** What the names of an `IPEDS` object are, spelt out for a table name
      and suffix without a '/'. */
  lemma IpedsNames(year: int, tableName: string, tableSuffix: string)
    requires tableName + tableSuffix != "" && NoSlash(tableName + tableSuffix)
    ensures var p := NewIpeds(year, tableName, tableSuffix);
      && p.combinedTableName == tableName + tableSuffix
      && p.fileName == p.baseName + ".zip"
      && p.url == BaseUrl + p.fileName
      && p.rawFileLoc == RawData + "/" + p.fileName
      && p.extractedLocation == ExtractedZips + "/" + p.combinedTableName
      && p.csvFile == ExtractedZips + "/" + p.combinedTableName + "/" + (p.baseName + ".csv")
  {
    var p := NewIpeds(year, tableName, tableSuffix);
    IpedsBaseName(year, tableName, tableSuffix);
    NoSlashConcat(p.baseName, ".zip");
    NoSlashConcat(p.baseName, ".csv");
    FolderNames();
    PathJoinPlain(RawData, p.fileName, "");
    PathJoinPlain(ExtractedZips, p.combinedTableName, p.baseName + ".csv");
  }
}
