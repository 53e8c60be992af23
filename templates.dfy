/** The two files the generator always writes itself: the MIT licence and the README.  Both
    are kept as lists of lines joined by newlines, the shape of the multi-line templates they
    come from. */
module Templates {
  import opened Strings
  import opened Files
  import opened Patterns
  import Validator

  // ---------------------------------------------------------------------------
  // LICENSE
  // ---------------------------------------------------------------------------

  /** The MIT licence text for the given year (the year comes from the clock). */
  function MitLicense(year: nat): (r: string)
    ensures StartsWith(r, "MIT License")
    ensures PrefixAt(r, 13, "Copyright (c) " + NatToString(year) + " Student Project")
  {
    LicenseHead(year);
    var copyright := "Copyright (c) " + NatToString(year) + " Student Project";
    var rest := Join(LicenseLines(year)[3..], '\n');
    var head := "MIT License" + ['\n'] + "" + ['\n'];
    assert PrefixAt(head + copyright + ['\n'] + rest, 0, "MIT License") by {
      assert PrefixAt("MIT License", 0, "MIT License");
      PrefixAtAppend("MIT License", ['\n'], 0, "MIT License");
      PrefixAtAppend("MIT License" + ['\n'], "", 0, "MIT License");
      PrefixAtAppend("MIT License" + ['\n'] + "", ['\n'], 0, "MIT License");
      PrefixAtAppend(head, copyright, 0, "MIT License");
      PrefixAtAppend(head + copyright, ['\n'], 0, "MIT License");
      PrefixAtAppend(head + copyright + ['\n'], rest, 0, "MIT License");
    }
    assert PrefixAt(head + copyright + ['\n'] + rest, |head|, copyright) by {
      PrefixAtJoint(head, copyright);
      PrefixAtAppend(head + copyright, ['\n'], |head|, copyright);
      PrefixAtAppend(head + copyright + ['\n'], rest, |head|, copyright);
    }
    Join(LicenseLines(year), '\n')
  }

  /** The licence opens with its title, a blank line and the copyright line. */
  lemma LicenseHead(year: nat)
    ensures Join(LicenseLines(year), '\n')
         == "MIT License" + ['\n'] + "" + ['\n'] + ("Copyright (c) " + NatToString(year) + " Student Project") + ['\n'] + Join(LicenseLines(year)[3..], '\n')
  {
    var lines := LicenseLines(year);
    assert lines[0] == LicenseLine(year, 0) && lines[1] == LicenseLine(year, 1) && lines[2] == LicenseLine(year, 2);
    LicenseFirstLines(year);
    JoinFirstThree(lines, '\n');
  }

  lemma LicenseFirstLines(year: nat)
    ensures LicenseLine(year, 0) == "MIT License" && LicenseLine(year, 1) == ""
    ensures LicenseLine(year, 2) == "Copyright (c) " + NatToString(year) + " Student Project"
  {
  }

  /** The lines of the licence; the last, empty one gives the closing newline. */
  function LicenseLines(year: nat): (r: seq<string>)
    ensures |r| == 22
  {
    seq(22, k requires 0 <= k => LicenseLine(year, k))
  }

  function LicenseLine(year: nat, k: nat): string {
    if k == 0 then "MIT License"
    else if k == 1 then ""
    else if k == 2 then "Copyright (c) " + NatToString(year) + " Student Project"
    else if k == 3 then ""
    else if k == 4 then "Permission is hereby granted, free of charge, to any person obtaining a copy"
    else if k == 5 then "of this software and associated documentation files (the \"Software\"), to deal"
    else if k == 6 then "in the Software without restriction, including without limitation the rights"
    else if k == 7 then "to use, copy, modify, merge, publish, distribute, sublicense, and/or sell"
    else if k == 8 then "copies of the Software, and to permit persons to whom the Software is"
    else if k == 9 then "furnished to do so, subject to the following conditions:"
    else if k == 10 then ""
    else if k == 11 then "The above copyright notice and this permission notice shall be included in all"
    else if k == 12 then "copies or substantial portions of the Software."
    else if k == 13 then ""
    else if k == 14 then "THE SOFTWARE IS PROVIDED \"AS IS\", WITHOUT WARRANTY OF ANY KIND, EXPRESS OR"
    else if k == 15 then "IMPLIED, INCLUDING BUT NOT LIMITED TO THE WARRANTIES OF MERCHANTABILITY,"
    else if k == 16 then "FITNESS FOR A PARTICULAR PURPOSE AND NONINFRINGEMENT. IN NO EVENT SHALL THE"
    else if k == 17 then "AUTHORS OR COPYRIGHT HOLDERS BE LIABLE FOR ANY CLAIM, DAMAGES OR OTHER"
    else if k == 18 then "LIABILITY, WHETHER IN AN ACTION OF CONTRACT, TORT OR OTHERWISE, ARISING FROM,"
    else if k == 19 then "OUT OF OR IN CONNECTION WITH THE SOFTWARE OR THE USE OR OTHER DEALINGS IN THE"
    else if k == 20 then "SOFTWARE."
    else ""
  }

  /** Any text opening with the line "MIT License" reads as MIT. */
  lemma MitHeaderRecognised(body: string)
    ensures Validator.LooksMit("MIT License\n" + body)
    ensures Contains(Lower("MIT License\n" + body), "mit")
    ensures !Validator.IsEmpty(Text("MIT License\n" + body))
  {
    var low := Lower("MIT License\n" + body);
    LowerAppend("MIT License\n", body);
    assert Lower("MIT License\n") == "mit license\n";
    assert low[..11] == "mit license";
    assert PrefixAt(low, 0, "mit license");
    assert PrefixAt(low, 0, "mit");
    assert !IsSpace(("MIT License\n" + body)[0]);
  }

  /** The generated licence reads as MIT to the structural check and to the licence rule. */
  lemma MitLicenseRecognised(year: nat)
    ensures Validator.LooksMit(MitLicense(year))
    ensures Contains(Lower(MitLicense(year)), "mit")
    ensures !Validator.IsEmpty(Text(MitLicense(year)))
  {
    var lines := LicenseLines(year);
    assert MitLicense(year) == "MIT License" + "\n" + Join(lines[1..], '\n');
    assert "MIT License" + "\n" == "MIT License\n";
    MitHeaderRecognised(Join(lines[1..], '\n'));
  }

  // ---------------------------------------------------------------------------
  // README.md
  // ---------------------------------------------------------------------------

  /** One line per file name, `- \`name\``, in sorted order, README.md excluded. */
  function FileList(names: set<string>): string {
    Join(FileLines(Sorted(names - {ReadmeFile})), '\n')
  }

  function FileLines(names: seq<string>): (r: seq<string>)
    ensures |r| == |names|
    ensures forall k :: 0 <= k < |r| ==> r[k] == "- `" + names[k] + "`"
  {
    seq(|names|, k requires 0 <= k < |names| => "- `" + names[k] + "`")
  }

  /** Every file but the README gets its line in the file list, and no other name does. */
  lemma FileListNames(names: set<string>)
    ensures forall n :: n in names && n != ReadmeFile ==> "- `" + n + "`" in FileLines(Sorted(names - {ReadmeFile}))
    ensures forall line :: line in FileLines(Sorted(names - {ReadmeFile})) ==>
              exists n :: n in names && n != ReadmeFile && line == "- `" + n + "`"
  {
    var sorted := Sorted(names - {ReadmeFile});
    var lines := FileLines(sorted);
    SortedSpec(names - {ReadmeFile});
    forall n | n in names && n != ReadmeFile ensures "- `" + n + "`" in lines {
      assert n in sorted;
      var k :| 0 <= k < |sorted| && sorted[k] == n;
      assert lines[k] == "- `" + n + "`";
    }
    forall line | line in lines ensures exists n :: n in names && n != ReadmeFile && line == "- `" + n + "`" {
      var k :| 0 <= k < |lines| && lines[k] == line;
      assert sorted[k] in names - {ReadmeFile};
    }
  }

  /** The README: title, summary (the brief), generation time, file list and fixed sections. */
  function GenerateReadme(brief: string, taskId: string, names: set<string>, generated: string): (r: string)
    ensures StartsWith(r, "# " + taskId + "\n\n## Project Summary\n\n" + brief + "\n")
  {
    var fileList := FileList(names);
    var lines := ReadmeLines(brief, taskId, fileList, generated);
    ReadmeHead(brief, taskId, fileList, generated);
    JoinFirstThree(lines[3..], '\n');
    assert lines[3..][0] == "" && lines[3..][1] == brief;
    var head := "# " + taskId + "\n\n## Project Summary\n\n" + brief + "\n";
    assert Join(lines, '\n') == head + ("" + ['\n'] + Join(lines[3..][3..], '\n'));
    Join(lines, '\n')
  }

  /** The lines of the README; the brief and the file list may themselves span lines. */
  function ReadmeLines(brief: string, taskId: string, fileList: string, generated: string): (r: seq<string>)
    ensures |r| == 61
  {
    seq(61, k requires 0 <= k => ReadmeLine(brief, taskId, fileList, generated, k))
  }

  function ReadmeLine(brief: string, taskId: string, fileList: string, generated: string, k: nat): string {
    if k == 0 then "# " + taskId
    else if k == 1 then ""
    else if k == 2 then "## Project Summary"
    else if k == 3 then ""
    else if k == 4 then brief
    else if k == 5 then ""
    else if k == 6 then "**Generated:** " + generated + " UTC"
    else if k == 7 then ""
    else if k == 8 then "## Files"
    else if k == 9 then ""
    else if k == 10 then fileList
    else if k == 11 then ""
    else if k == 12 then "## Setup Instructions"
    else if k == 13 then ""
    else if k == 14 then "1. Clone this repository:"
    else if k == 15 then "   ```bash"
    else if k == 16 then "   git clone <repository-url>"
    else if k == 17 then "   cd " + taskId
    else if k == 18 then "   ```"
    else if k == 19 then ""
    else if k == 20 then "2. Open in browser:"
    else if k == 21 then "   - Simply open `index.html` in your web browser"
    else if k == 22 then "   - Or use a local server:"
    else if k == 23 then "     ```bash"
    else if k == 24 then "     python -m http.server 8000"
    else if k == 25 then "     # Visit http://localhost:8000"
    else if k == 26 then "     ```"
    else if k == 27 then ""
    else if k == 28 then "## Usage"
    else if k == 29 then ""
    else if k == 30 then UsageParagraph()
    else if k == 31 then ""
    else if k == 32 then "## Code Explanation"
    else if k == 33 then ""
    else if k == 34 then "### Main Components"
    else if k == 35 then ""
    else if k == 36 then "- **index.html**: Main application interface and structure"
    else if k == 37 then "- **style.css**: Styling and layout (if separate file)"
    else if k == 38 then "- **script.js**: Application logic and interactivity (if separate file)"
    else if k == 39 then ""
    else if k == 40 then TechnologyParagraph()
    else if k == 41 then ""
    else if k == 42 then "### Key Features"
    else if k == 43 then ""
    else if k == 44 then "The application implements all requirements specified in the brief, with proper error handling and user-friendly interface design."
    else if k == 45 then ""
    else if k == 46 then "## Technical Details"
    else if k == 47 then ""
    else if k == 48 then "- Pure client-side application (no backend required)"
    else if k == 49 then "- External libraries loaded from CDN (no build process needed)"
    else if k == 50 then "- Responsive design for various screen sizes"
    else if k == 51 then "- Modern browser required (Chrome, Firefox, Safari, Edge)"
    else if k == 52 then ""
    else if k == 53 then "## License"
    else if k == 54 then ""
    else if k == 55 then "This project is licensed under the MIT License - see the LICENSE file for details."
    else if k == 56 then ""
    else if k == 57 then "## Deployment"
    else if k == 58 then ""
    else if k == 59 then "This application is deployed on GitHub Pages at the repository's Pages URL."
    else ""
  }

  /** The paragraph under "## Usage". */
  function UsageParagraph(): (r: string)
    ensures |r| == 131
  {
    "Open the application in a "
    + "modern web browser. The app "
    + "will automatically handle "
    + "the requirements as "
    + "specified in the project "
    + "brief."
  }

  /** The paragraph after the list of main components. */
  function TechnologyParagraph(): (r: string)
    ensures |r| == 162
  {
    "The application is built "
    + "using standard web "
    + "technologies (HTML5, CSS3, "
    + "JavaScript) and may include "
    + "external libraries loaded "
    + "via CDN for additional "
    + "functionality."
  }

  /** Two lines of a joined text are no longer than the text. */
  lemma JoinHoldsTwoLines(lines: seq<string>, sep: char, i: nat, j: nat)
    requires i < j < |lines|
    ensures |Join(lines, sep)| > |lines[i]| + |lines[j]|
  {
    var sub := lines[i..j + 1];
    JoinRangeIsInfix(lines, i, j + 1, sep);
    ContainsLength(Join(lines, sep), Join(sub, sep));
    assert Join(sub, sep) == sub[0] + [sep] + Join(sub[1..], sep);
    var tail := sub[1..];
    JoinRangeIsInfix(tail, |tail| - 1, |tail|, sep);
    assert tail[|tail| - 1..] == [lines[j]];
    ContainsLength(Join(tail, sep), lines[j]);
  }

  /** A text made of a title line, a blank line, a "## " line and more than 200 further
      characters reads as a professional README. */
  lemma TitledTextProfessional(taskId: string, body: string)
    requires |body| > 200
    ensures Validator.ProfessionalReadme("# " + taskId + "\n\n## Project Summary\n" + body)
    ensures !Validator.IsEmpty(Text("# " + taskId + "\n\n## Project Summary\n" + body))
  {
    var s := "# " + taskId + "\n\n## Project Summary\n" + body;
    assert s[0] == '#' && s[1] == ' ';
    assert HashRunEnd(s, 1) == 1;
    assert HeadingAt(s, 0);
    var k := |taskId| + 4;
    var head := "\n\n## Project Summary\n";
    assert s[k] == head[2] == '#' && s[k + 1] == head[3] == '#';
    assert s[k..k + 2] == "##";
    assert PrefixAt(s, k, "##");
    assert !IsSpace(s[0]);
  }

  /** The generated README passes the README quality rule and is long enough to draw no
      length warning. */
  lemma GeneratedReadmeProfessional(brief: string, taskId: string, names: set<string>, generated: string)
    ensures Validator.ProfessionalReadme(GenerateReadme(brief, taskId, names, generated))
    ensures |GenerateReadme(brief, taskId, names, generated)| >= 150
    ensures !Validator.IsEmpty(Text(GenerateReadme(brief, taskId, names, generated)))
  {
    var fileList := FileList(names);
    ReadmeHead(brief, taskId, fileList, generated);
    ReadmeBodyLong(brief, taskId, fileList, generated);
    TitledTextProfessional(taskId, Join(ReadmeLines(brief, taskId, fileList, generated)[3..], '\n'));
  }

  /** The README names every file of the application except itself, one per line. */
  lemma ReadmeListsFiles(brief: string, taskId: string, names: set<string>, generated: string)
    ensures forall n :: n in names && n != ReadmeFile ==> Contains(GenerateReadme(brief, taskId, names, generated), "- `" + n + "`")
  {
    var fileList := FileList(names);
    var lines := ReadmeLines(brief, taskId, fileList, generated);
    assert GenerateReadme(brief, taskId, names, generated) == Join(lines, '\n');
    JoinRangeIsInfix(lines, 10, 11, '\n');
    assert lines[10..11] == [fileList];
    var fl := FileLines(Sorted(names - {ReadmeFile}));
    FileListNames(names);
    forall n | n in names && n != ReadmeFile
      ensures Contains(GenerateReadme(brief, taskId, names, generated), "- `" + n + "`")
    {
      var k :| 0 <= k < |fl| && fl[k] == "- `" + n + "`";
      JoinRangeIsInfix(fl, k, k + 1, '\n');
      assert fl[k..k + 1] == [fl[k]];
      ContainsTrans(Join(lines, '\n'), fileList, fl[k]);
    }
  }

  /** The README opens with the title line, a blank line and the summary heading. */
  lemma ReadmeHead(brief: string, taskId: string, fileList: string, generated: string)
    ensures Join(ReadmeLines(brief, taskId, fileList, generated), '\n')
         == "# " + taskId + "\n\n## Project Summary\n" + Join(ReadmeLines(brief, taskId, fileList, generated)[3..], '\n')
  {
    var lines := ReadmeLines(brief, taskId, fileList, generated);
    assert lines[0] == "# " + taskId && lines[1] == "" && lines[2] == "## Project Summary";
    JoinFirstThree(lines, '\n');
    TitleText(taskId, Join(lines[3..], '\n'));
  }

  /** The title, blank and summary-heading lines joined by newlines. */
  lemma TitleText(taskId: string, rest: string)
    ensures ("# " + taskId) + ['\n'] + "" + ['\n'] + "## Project Summary" + ['\n'] + rest
         == "# " + taskId + "\n\n## Project Summary\n" + rest
  {
  }

  /** What follows the summary heading holds the usage and technology paragraphs. */
  lemma ReadmeBodyLong(brief: string, taskId: string, fileList: string, generated: string)
    ensures |Join(ReadmeLines(brief, taskId, fileList, generated)[3..], '\n')| > 200
  {
    var lines := ReadmeLines(brief, taskId, fileList, generated);
    assert lines[3..][27] == UsageParagraph();
    assert lines[3..][37] == TechnologyParagraph();
    JoinHoldsTwoLines(lines[3..], '\n', 27, 37);
  }
}
