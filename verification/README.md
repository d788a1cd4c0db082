# Image sorter: the classification pipeline

`sort_images.py` walks a source tree and reads each image's size from the one-line
description the `file` utility prints. It keeps images that are large enough and whose
aspect ratio is within 0.1 of one of the target ratios. Those images are copied or moved
to `<dest>/Ratio_<label>/<tier>/<name>`, where the tier comes from the image's shorter
side. When the planned name is already taken, the image gets a single `_1` rename.

This project models that decision logic as pure Dafny functions and proves properties
about them:

- **Text** (`text.dfy`): characters, digit runs, `str.split`, `in`, `lower()` and `replace`.
- **ResolutionScanner** (`scanner.dfy`): `get_resolution` after `file` has printed its
  output. This covers the split at the first colon, `re.findall(r'(\d+)\s*x\s*(\d+)',
  re.IGNORECASE)`, and the first match whose two numbers are both positive.
- **RatioParser** (`ratio.dfy`): `parse_ratio`, together with Python's `float()` on finite
  decimal literals.
- **FloatLiteral** (`literal.dfy`): the grammar of the decimal literals `float()` accepts,
  as parts (sign, digits, point, fraction digits, exponent) with their exact value. This
  is a reference definition for `float()`, and it characterises which texts are accepted.
- **Tiering** (`tiering.dfy`): `get_resolution_category`.
- **Classifier** (`classifier.dfy`): the command-line ratio list, the resolution check, the
  first-match ratio scan and the `:`→`x` folder label.
- **Paths** (`paths.dfy`): POSIX `os.path.join` and `os.path.splitext`, the subfolder
  layout, and the planned destination with its `_1` rename.
- **Filters** (`filters.dfy`): which directories of the walk are skipped and which file
  names are looked at.
- **Sorter** (`sorter.dfy`): the fate of one file, from its name and `file` description to
  the outcome. The outcomes are: not a candidate, no resolution, skipped, dry-run report,
  or placed at a path. It also covers the files of a walk in order, where each copy creates its
  target before the next file is planned, and the `count_moved` and `count_skipped` totals.

Some inputs are not computed by the model and are taken as parameters instead:

- the output of `file` is a string parameter;
- the existence test `os.path.exists`, as it stands before the walk, is a parameter
  `present: string -> bool`. A real run adds each placed file's target to it before the
  next file is planned;
- the absolute paths produced by `os.path.abspath` are string parameters.

Where the code and its design description differ, the model follows the code:

- The code has no preset files. Criteria come only from `--width`, `--height` and `--ratios`.
- A zero divisor in `W:0` is not reported as an invalid format. `parse_ratio` catches only
  `ValueError`, so the `ZeroDivisionError` escapes and ends the program. The model keeps it
  as a separate error, `DivisionByZero`.
- The tolerance is the fixed constant `RATIO_TOLERANCE`, not a setting.

## Model

| member | source | states |
|---|---|---|
| Text.DigitsEnd | sort_images.py:22 | the end of the greedy `\d+` run: all digits up to it and no digit at it |
| Text.SpacesEnd | sort_images.py:22 | the end of the greedy `\s*` run: all whitespace up to it and none at it |
| Text.NatToDigits | sort_images.py:24-25 | the decimal spelling of n is non-empty digits without a leading zero, and `int()` of it is n |
| Text.IndexOf | sort_images.py:20 | the first occurrence of the character, with none before it |
| Text.LastIndexOf | sort_images.py:89-128 | the last occurrence of the character, or -1, with none after it |
| Text.Split | sort_images.py:20-35 | `str.split`: the parts contain no separator and joined with it give back the text |
| Text.SplitLength | sort_images.py:35 | the split has one more part than the text has separators |
| Text.SplitUnique | sort_images.py:35 | any separator-free parts joining to the text are its split |
| Text.ContainsIff | sort_images.py:86-93 | `sub in s` holds exactly when sub occurs at some position of s |
| Text.ContainsInfix | sort_images.py:86-93 | a text containing sub between two pieces contains it |
| Text.Lower | sort_images.py:89-93 | `lower()` keeps the length and lower-cases each character in place |
| Text.LowerAppend | sort_images.py:89-93 | lower-casing commutes with concatenation |
| Text.LowerIdempotent | sort_images.py:89-93 | lower-casing twice is lower-casing once |
| Text.ReplaceChar | sort_images.py:113 | `replace` of one character: the same length, the character replaced everywhere, and the rest kept |
| ResolutionScanner.MatchAt | sort_images.py:22 | a match tried at p starts at p and ends inside the text |
| ResolutionScanner.MatchAtSound | sort_images.py:22 | every match found is an occurrence of `\d+\s*[xX]\s*\d+` at p whose groups give width and height, and whose second digit run cannot be extended |
| ResolutionScanner.MatchAtComplete | sort_images.py:22 | wherever the pattern occurs at p, a match is found there, with the same first group and the longest second group |
| ResolutionScanner.FindAllSpec | sort_images.py:22 | `findall` returns matches that are in order, do not overlap, are genuine, and are leftmost: no match is missed before, between or after them |
| ResolutionScanner.FindAllOrdered | sort_images.py:22 | the scan reports matches inside the text, left to right, without overlap |
| ResolutionScanner.FindAllMatches | sort_images.py:22 | every reported match is what the pattern matches at its start |
| ResolutionScanner.FindAllNoneBefore | sort_images.py:22 | no match starts before the first reported one |
| ResolutionScanner.FindAllNoneAfter | sort_images.py:22 | no match starts after the last reported one |
| ResolutionScanner.FindAllGaps | sort_images.py:22 | no match starts between two consecutive reported ones |
| ResolutionScanner.FirstPositive | sort_images.py:23-28 | the index of the first match with both numbers positive, with no positive match before it; none only when no match is positive |
| ResolutionScanner.ScanContent | sort_images.py:22-28 | the size is that of the first positive match; none exactly when no match is positive; a size found is always positive |
| ResolutionScanner.ScanResolution | sort_images.py:20-28 | a size read from `file` output is positive in both dimensions |
| ResolutionScanner.ContentAfterColon | sort_images.py:20-21 | `split(':', 1)`: the whole output when it has no colon; otherwise the text after the first colon, with a colon-free text before it |
| ResolutionScanner.ScanIgnoresPrefix | sort_images.py:20-21 | the text up to and including the first colon never affects the size read; this is the echoed path only when the path has no colon |
| ResolutionScanner.ScanWithoutColon | sort_images.py:21 | output without a colon is scanned whole |
| ResolutionScanner.FindAllSkipsNonDigits | sort_images.py:22 | positions without a digit start no match and are passed over |
| ResolutionScanner.ScanFindsPrintedSize | sort_images.py:20-28 | text without digits, then `<w><spaces>x<spaces><h>` not followed by a digit, reads back as exactly w by h |
| ResolutionScanner.ScanFindsFirstMatch | sort_images.py:23-27 | a positive match with no digit before it is the size returned |
| ResolutionScanner.PrintedSizeShape | sort_images.py:22 | `<pre><digits><spaces>x<spaces><digits><post>` is an occurrence of the pattern at the end of pre, with the two digit runs as its groups |
| ResolutionScanner.NoDigitAtEdges | sort_images.py:22-27 | a text made of a digit-free pre, anything, then a post not starting with a digit has no digit before the middle and none right after it |
| ResolutionScanner.PatternReadAt | sort_images.py:22-27 | an occurrence with no digit before it and none right after it, whose groups spell w and h, is the size returned |
| ResolutionScanner.NameSizeRead | sort_images.py:22-27 | a text starting with `<w>x<h>` and then a non-digit is read as w by h |
| ResolutionScanner.ColonPathMisread | sort_images.py:20-22 | for a path `<dir>:<w>x<h><rest>` with a colon-free dir, the size is read from the path as w by h, whatever `file` printed after it |
| ResolutionScanner.DescriptionOf | sort_images.py:20-21 | the output is the path, a colon and the result when it starts with them; otherwise the result is the cut at the first colon |
| ResolutionScanner.ScanResolutionOfFile | sort_images.py:20-28 | the corrected scan: a size found is positive in both dimensions |
| ResolutionScanner.ScanResolutionOfFileIgnoresPath | sort_images.py:20-28 | with the correction, `<path>:<rest>` is read as rest alone for every path, with or without a colon |
| ResolutionScanner.ScanResolutionOfFileAgrees | sort_images.py:20-28 | for a path without a colon, the corrected scan reads the same size as the source |
| ResolutionScanner.DescribedSize | sort_images.py:20-28 | `<path>: <words> <w> x <h><more>` is read as w by h |
| RatioParser.TrimEnd | sort_images.py:35-37 | `rstrip`: the result is a prefix, only whitespace was removed, and it does not end in whitespace |
| RatioParser.Strip | sort_images.py:35-37 | `strip`: the input is whitespace + result + whitespace, and the result has no whitespace at either end |
| RatioParser.StripKeeps | sort_images.py:35-37 | a text without whitespace at its ends is left unchanged by `strip` |
| RatioParser.UnsignedDecimal | sort_images.py:35-37 | `<digits>.<digits>` with at least one digit reads as its exact decimal value |
| RatioParser.UnsignedInteger | sort_images.py:35-37 | a run of digits reads as the integer it denotes |
| RatioParser.ParseFloatNat | sort_images.py:35-37 | `float(str(n))` is n for every natural n |
| RatioParser.ParseFloatDecimal | sort_images.py:37 | `float('<i>.<f>')` is the decimal value of i.f |
| RatioParser.UnsignedLiteral | sort_images.py:37 | an unsigned literal without surrounding whitespace reads the same through `float` |
| RatioParser.ExponentAlphabet | sort_images.py:35-37 | an exponent that parses uses only numeral characters |
| RatioParser.UnsignedAlphabet | sort_images.py:35-37 | an unsigned literal that parses uses only numeral characters |
| RatioParser.SignedAlphabet | sort_images.py:35-37 | a signed literal that parses uses only numeral characters |
| RatioParser.SurroundedAlphabet | sort_images.py:35-37 | whitespace around a numeral keeps it made of numeral characters |
| RatioParser.ParseFloatAlphabet | sort_images.py:35-37 | any text `float` accepts consists of digits, whitespace, signs, `.`, `e` and `E` |
| RatioParser.NumbersUseNumerals | sort_images.py:35-37 | for every text: if `float` accepts it, it uses only numeral characters |
| RatioParser.ParseRatio | sort_images.py:32-40 | every error carries the offending token |
| RatioParser.ParseRatioPlain | sort_images.py:34-38 | without a colon, the token parses exactly when `float` accepts it, to the same value; otherwise it is a format error |
| RatioParser.ParseRatioPartCount | sort_images.py:35-38 | two or more colons give a format error, since the split does not yield two parts |
| RatioParser.SplitPair | sort_images.py:35 | `"W:H".split(':')` is `[W, H]` when neither part has a colon |
| RatioParser.ParseRatioQuotient | sort_images.py:35-36 | `W:H` with numeric parts and non-zero H is W / H |
| RatioParser.ParseRatioDivisionByZero | sort_images.py:35-36 | `W:H` with numeric parts and H zero is the division error, not a format error |
| RatioParser.ParseRatioBadPart | sort_images.py:35-38 | `W:H` with a non-numeric part is a format error |
| RatioParser.ParseRatioRejectsNonNumeral | sort_images.py:35-38 | a token holding any character that belongs to no number (other than `:`) is a format error |
| RatioParser.ParseRatioOfNats | sort_images.py:34-36 | printing whole numbers as `W:H` and parsing gives W / H, or the division error when H is 0 |
| RatioParser.ParseRatioZeroDivisor | sort_images.py:36 | `1:0` is the division error |
| RatioParser.ParseRatioLetters | sort_images.py:35-38 | `a:b` is a format error |
| FloatLiteral.ExponentRead | sort_images.py:35-37 | a well-formed exponent part, written out, is read as its signed digits |
| FloatLiteral.ParseUnsignedCuts | sort_images.py:35-37 | given where the digit runs end, the unsigned reading is the mantissa, scaled by the exponent when one follows |
| FloatLiteral.MantissaRead | sort_images.py:35-37 | digit runs laid out as a literal's integer and fraction digits read as its mantissa value |
| FloatLiteral.LaidOutRead | sort_images.py:35-37 | a text laid out as the parts of a well-formed literal is read as the literal's unsigned value |
| FloatLiteral.UnsignedRead | sort_images.py:35-37 | the unsigned spelling of a well-formed literal is read as its unsigned value |
| FloatLiteral.UnsignedStart | sort_images.py:35-37 | an accepted unsigned text starts with a digit or a point |
| FloatLiteral.SignedRead | sort_images.py:35-37 | a sign, if any, before an accepted unsigned text keeps its value for `+` or nothing and negates it for `-` |
| FloatLiteral.LiteralRead | sort_images.py:35-37 | writing a well-formed literal out and reading it back gives its exact value |
| FloatLiteral.UnsignedAccepted | sort_images.py:35-37 | an accepted unsigned text has a mantissa digit, and an accepted exponent after the mantissa when anything follows it |
| FloatLiteral.ExponentParts | sort_images.py:35-37 | an accepted exponent is an optional sign and one or more digits |
| FloatLiteral.CutWellFormed | sort_images.py:35-37 | the parts cut from such a text make a well-formed literal |
| FloatLiteral.CutSpelling | sort_images.py:35-37 | writing out the parts cut from any text gives the text back |
| FloatLiteral.LiteralParts | sort_images.py:35-37 | every text the signed reading accepts is the spelling of a well-formed literal |
| FloatLiteral.ParseFloatCharacterised | sort_images.py:35-37 | `float(s)` gives v exactly when s, stripped of surrounding whitespace, spells a well-formed literal whose value is v |
| FloatLiteral.SignlessFloat | sort_images.py:35-37 | without surrounding whitespace or a sign, `float` reads a text as the unsigned reading does |
| FloatLiteral.UnsignedRejectsLonePoint | sort_images.py:35-37 | the unsigned reading rejects `.` |
| FloatLiteral.RejectsLonePoint | sort_images.py:35-37 | `float('.')` is rejected: a point needs a digit |
| FloatLiteral.UnsignedRejectsTwoPoints | sort_images.py:35-37 | the unsigned reading rejects `1.2.3` |
| FloatLiteral.RejectsTwoPoints | sort_images.py:35-37 | `float('1.2.3')` is rejected |
| FloatLiteral.UnsignedRejectsBareExponent | sort_images.py:35-37 | the unsigned reading rejects `1e` |
| FloatLiteral.RejectsBareExponent | sort_images.py:35-37 | `float('1e')` is rejected: an exponent needs digits |
| FloatLiteral.UnsignedRejectsSign | sort_images.py:35-37 | the unsigned reading rejects `-1` |
| FloatLiteral.RejectsTwoSigns | sort_images.py:35-37 | `float('+-1')` is rejected: at most one sign |
| FloatLiteral.UnsignedRejectsInnerSpace | sort_images.py:35-37 | the unsigned reading rejects `1 5` |
| FloatLiteral.RejectsInnerSpace | sort_images.py:35-37 | `float('1 5')` is rejected: whitespace only around the number |
| Tiering.ShortSide | sort_images.py:45 | `min(w, h)`: at most both sides and equal to one of them |
| Tiering.Category | sort_images.py:42-52 | the tier's threshold admits the short side, and no higher tier's threshold does |
| Tiering.RankInjective | sort_images.py:47-52 | the six tiers are tried in one strict order |
| Tiering.ThresholdsDecrease | sort_images.py:47-52 | a tier tried earlier has a strictly larger threshold, and conversely |
| Tiering.CategoryIsHighestAdmitting | sort_images.py:42-52 | the category is t if and only if t admits the short side and no earlier tier does |
| Tiering.CategorySymmetric | sort_images.py:43-45 | swapping width and height does not change the tier |
| Tiering.CategoryMonotone | sort_images.py:45-52 | a larger short side never gives a lower tier |
| Tiering.Above | sort_images.py:47-51 | the tier tried just before t |
| Tiering.CategoryBand | sort_images.py:47-52 | the tier is t exactly when the short side is at least t's threshold and below the threshold of the tier above |
| Tiering.NamesDistinct | sort_images.py:47-52 | the six folder names are pairwise distinct |
| Classifier.Abs | sort_images.py:111 | `abs`: non-negative, and equal to x or -x |
| Classifier.FirstRejected | sort_images.py:68 | the first token the parser rejects, with all earlier tokens accepted; none exactly when all are accepted |
| Classifier.ParseAll | sort_images.py:68 | succeeds exactly when no token is rejected; targets keep the tokens in order with the parsed values; on failure, the error is that of the first rejected token |
| Classifier.FirstBadToken | sort_images.py:68 | the first token `parse_ratio` rejects, with all earlier tokens accepted; none exactly when all parse |
| Classifier.ParseTargets | sort_images.py:68 | the ratio list is read in order and is all-or-nothing; the first bad token's error ends it |
| Classifier.BuildCriteria | sort_images.py:66-68 | succeeds exactly when every token parses; the criteria keep both minimums and one target per token, in order, with its parsed value; on failure, the error is that of a token with all earlier tokens accepted |
| Classifier.ParseTargetsOfNats | sort_images.py:68 | a list of `W:H` tokens of whole numbers with non-zero H parses to the targets W / H, with the tokens kept |
| Classifier.BuildCriteriaOfNats | sort_images.py:66-68 | a command line whose ratios are all whole-number `W:H` tokens with non-zero H always builds criteria with the targets W / H, in order, tokens kept |
| Classifier.ParseTargetsSingle | sort_images.py:68 | a single parsing token gives a single target |
| Classifier.BuildCriteriaSingle | sort_images.py:66-68 | a single parsing token gives criteria with both minimums and that token's target alone |
| Classifier.DefaultRatiosSpelling | sort_images.py:58 | the default ratio list, written with the digits of 16 and 9, is the one token `16:9` |
| Classifier.DefaultLabel | sort_images.py:58-113 | the default token is labelled `16x9` |
| Classifier.TwoDigits | sort_images.py:58 | a number from 10 to 99 is spelled as its tens digit and then its units digit |
| Classifier.SpelledRatio | sort_images.py:32-36 | a token spelled `W:H` from whole numbers with H positive parses to W / H |
| Classifier.BuildCriteriaPair | sort_images.py:68 | two tokens that parse become two targets, in the order given, with their parsed values |
| Classifier.BuildCriteriaOfTwoNats | sort_images.py:66-68 | two whole-number tokens `W:H` with H positive build the criteria with the targets W / H, in order |
| Classifier.SpelledToken | sort_images.py:58 | the digits of a two-digit W and a one- or two-digit H around a colon are the expected token text |
| Classifier.SpelledLabel | sort_images.py:113 | the folder name of such a token is the same digits around an `x` |
| Classifier.SuperWideRatiosSpelling | sort_images.py:58 | the ratio list used in the super-wide example is `16:9 32:9` |
| Classifier.EarlierFirstRatiosSpelling | sort_images.py:58 | the ratio list used in the first-match example is `17:10 16:9` |
| Classifier.DefaultCriteriaBuilt | sort_images.py:9-68 | the default command line builds the criteria 2560 by 1440 with the single target 16 / 9, the parsed value of `16:9` |
| Classifier.HighResMonotone | sort_images.py:104 | an image at least as wide and at least as high as one that meets the minimums meets them too |
| Classifier.HighResIgnoresOrientation | sort_images.py:9-104 | with the defaults, 2560x1440 is large enough and the portrait 1440x2560 is not |
| Classifier.Within | sort_images.py:111 | `abs(ratio - target) < 0.1` holds exactly when the ratio lies strictly between target - 0.1 and target + 0.1 |
| Classifier.FirstWithin | sort_images.py:110-114 | the first target within tolerance, with none before it; none exactly when no target is within tolerance |
| Classifier.FirstWithinIs | sort_images.py:110-114 | a target within tolerance with none before it is the one the scan stops at |
| Classifier.FirstMatchBeatsCloser | sort_images.py:110-114 | a later target closer to the image's ratio does not displace an earlier match |
| Classifier.Label | sort_images.py:113 | a folder label never contains `:` |
| Classifier.LabelOfPair | sort_images.py:113 | `W:H` is labelled `WxH` |
| Classifier.LabelPlain | sort_images.py:113 | a token without a colon is its own label |
| Classifier.LabelKeepsOthers | sort_images.py:113 | every character other than `:` is kept in place |
| Classifier.MatchRatio | sort_images.py:107-114 | the loop reports a match exactly when some target is within tolerance; the label is that of the first such target, or `Unknown` |
| Classifier.Classify | sort_images.py:100-118 | sorted exactly when large enough and some target is within 0.1; the tier is the category; the label is from the first target within tolerance |
| Classifier.SuperWideOf | sort_images.py:104-118 | at the default minimum size, 5120x1440 with targets 16 / 9 and then 32 / 9 is filed under the second token's label, QHD_2K |
| Classifier.EarlierTargetOf | sort_images.py:104-118 | at the default minimum size, 3840x2160 with targets 17 / 10 and then 16 / 9 is filed under the first token's label, 4K_UHD |
| Classifier.ClassifySuperWide | sort_images.py:66-118 | the criteria that `--ratios 16:9 32:9` builds exist, and with them 5120x1440 is filed under `32x9`, QHD_2K |
| Classifier.SuperWideBuilt | sort_images.py:66-118 | the super-wide criteria build, and the image is filed under the label of the second token |
| Classifier.SuperWideLabel | sort_images.py:113 | the second super-wide token is labelled `32x9` |
| Classifier.ClassifyPrefersEarlierTarget | sort_images.py:66-118 | the criteria that `--ratios 17:10 16:9` build exist, and with them 3840x2160 is filed under `17x10`, although 16:9 is exact |
| Classifier.EarlierFirstBuilt | sort_images.py:66-118 | the first-match criteria build, and the image is filed under the label of the first token |
| Classifier.EarlierFirstLabel | sort_images.py:113 | the first token of the first-match example is labelled `17x10` |
| Classifier.ClassifyUhdSixteenNinths | sort_images.py:104-118 | 3840x2160 against the default minimums and a single target 16 / 9 is filed under that token's label, 4K_UHD |
| Classifier.ClassifyUhdDefault | sort_images.py:9-118 | the criteria the default command line builds exist, and 3840x2160 is filed under `16x9`, 4K_UHD, with them |
| Paths.DirPrefix | sort_images.py:119-125 | a directory before a relative name: it starts with the directory, adds at most one character, and ends in `/` unless empty |
| Paths.Join | sort_images.py:119-125 | `os.path.join`: an absolute second argument replaces the first; otherwise the result is the first as a directory (unchanged if empty or ending in `/`, else with one `/` added) followed by the second |
| Paths.JoinRelative | sort_images.py:119-125 | joining a relative name onto a directory not ending in `/` puts exactly one `/` between them |
| Paths.SplitExt | sort_images.py:89-128 | `splitext` splits the path into root + ext; ext is empty or one dot followed by no dot and no slash |
| Paths.SplitExtOf | sort_images.py:89-128 | a stem whose base name is not all dots, followed by one extension, splits back into exactly that stem and extension |
| Paths.SplitExtNoDot | sort_images.py:89-128 | a name with no dot after its last slash has no extension |
| Paths.Renamed | sort_images.py:128-129 | the `_1` name keeps the extension, ends the root with `_1`, is two characters longer, and adds no slash |
| Paths.HasNonDotExtended | sort_images.py:128 | appending text after a range does not change whether that range has a non-dot character |
| Paths.BaseName | sort_images.py:125-129 | the last component has no slash |
| Paths.BaseNameJoin | sort_images.py:125-129 | a name without slashes, joined onto a directory, is the last component of the result |
| Paths.TierNameIsComponent | sort_images.py:47-119 | tier names are non-empty single path components |
| Paths.Subfolder | sort_images.py:119 | the subfolder starts with the destination as a directory and `Ratio_<label>`, and ends with `/` and the tier name |
| Paths.JoinTwice | sort_images.py:119 | two relative joins start with the directory and the first name, and end with `/` and the second name |
| Paths.SubfolderTail | sort_images.py:119-125 | joining a relative name onto a non-empty directory leaves a `/` just before the name |
| Paths.JoinTwiceLayout | sort_images.py:119 | when the first name does not end in `/`, two relative joins are the directory, the first name, `/` and the second name |
| Paths.RatioComponent | sort_images.py:119 | `Ratio_<label>` is relative and does not end in `/` when the label has no slash |
| Paths.SubfolderLayoutAny | sort_images.py:119 | under any destination, the subfolder is the destination as a directory, then `Ratio_<label>/<tier>`; `out` and `out/` give `out/Ratio_<label>/<tier>`, and an empty destination gives `Ratio_<label>/<tier>` |
| Paths.SubfolderLayout | sort_images.py:119 | the subfolder is `<dest>/Ratio_<label>/<tier>` when dest is non-empty and does not end in `/` and the label has no slash |
| Paths.SubfolderTrailingSlash | sort_images.py:119 | a trailing `/` on the destination does not change the subfolder |
| Paths.SubfolderInjective | sort_images.py:119 | under any destination, two subfolders are the same exactly when label and tier are both the same |
| Paths.ComponentsInjective | sort_images.py:119 | after a common prefix, `<label>/<name>` with a slash-free name determines both label and name |
| Paths.RenamedIsComponent | sort_images.py:128-129 | the rename of a name without slashes is non-empty and has no slash |
| Paths.PlanTarget | sort_images.py:125-129 | the target is in the subfolder, under the name or its `_1` rename; the rename is chosen exactly when the name's path exists; the extension is kept |
| Paths.PlanTargetLooksOnce | sort_images.py:125-129 | only the name's own path is looked up |
| Paths.PlanTargetMayOverwrite | sort_images.py:127-129 | when the name and its `_1` form are both taken, the target is an existing path |
| Filters.ImageExtensionsAreLower | sort_images.py:14 | every image extension is a dot followed by lower-case letters |
| Filters.LowerExtensionShape | sort_images.py:14-89 | such an extension has no further dot and no slash, and is its own lower case |
| Filters.ImageByExtension | sort_images.py:89-90 | `<stem><ext>` with an image extension in any case, and a stem not all dots, has an image extension |
| Filters.NoDotNoCandidate | sort_images.py:89-90 | a name with no dot is never looked at |
| Filters.ThumbnailExcluded | sort_images.py:93-94 | a name containing `thumbnail`, in any case, is never looked at |
| Filters.CandidateIgnoresCase | sort_images.py:89-94 | lower-casing a name does not change whether it is looked at |
| Filters.LowerKeepsSeparators | sort_images.py:89 | lower-casing maps `/` and `.` to themselves and nothing else to them |
| Filters.SplitExtLower | sort_images.py:89 | splitting off the extension commutes with lower-casing |
| Filters.HasNonDotLower | sort_images.py:89 | lower-casing neither creates nor removes a non-dot character |
| Filters.LastIndexOfLower | sort_images.py:89 | the last `/` or `.` is at the same place after lower-casing |
| Filters.LowerSlices | sort_images.py:89 | lower-casing commutes with cutting the text |
| Filters.WithSlash | sort_images.py:84 | the destination with exactly one trailing `/` still starts with the destination |
| Filters.SkipDirectoryAsWrittenOvermatches | sort_images.py:84-85 | a sibling `<parent>/<dest><extra>` is skipped by the plain prefix test but is not inside the destination |
| Filters.SkipDirectoryNarrower | sort_images.py:83-86 | every directory the corrected skip drops is dropped by the prefix test too |
| Filters.SkipDirectoryDifference | sort_images.py:84-86 | the two skips differ exactly on directories that extend the destination in the middle of a path component |
| Filters.SkipDirectoryBelow | sort_images.py:83-85 | the destination and every directory below it are skipped |
| Filters.SiblingNotInside | sort_images.py:83-85 | a directory named differently under the same parent is not inside the destination |
| Filters.HiddenSkipped | sort_images.py:86 | a path containing `/.` is skipped by both tests |
| Filters.Candidates | sort_images.py:88-94 | at most as many names, and exactly the names with an image extension that are not thumbnails |
| Filters.CandidatesAppend | sort_images.py:88-94 | filtering two pieces of a listing and joining them is filtering the whole listing, so the candidates keep the listing's order |
| Filters.FilesToExamine | sort_images.py:82-94 | with the skip as written: nothing in a directory the prefix test or the hidden test skips; otherwise exactly the candidate names |
| Filters.FilesToExamineCorrected | sort_images.py:82-94 | with the corrected skip: nothing in the destination, below it or in a hidden directory; otherwise exactly the candidate names |
| Filters.FilesToExamineCorrectedKeeps | sort_images.py:83-94 | the two walks look at the same files wherever the written test does not skip; they differ only where the directory extends the destination's name in the middle of a component |
| Sorter.ProcessFile | sort_images.py:88-144 | not a candidate, no resolution, and skipped each hold exactly under their condition; placement happens only when classified as sorted, into its subfolder; a dry run never writes and a real run never reports a dry run; the target is the planned one |
| Sorter.PlacedOnlyWhenAccepted | sort_images.py:99-118 | a file is given a place exactly when it is a candidate with a known size, large enough, and within tolerance of some target |
| Sorter.DryRunAgrees | sort_images.py:121-142 | dry and real runs agree on every file's decision and subfolder; they differ only in reporting instead of writing |
| Sorter.Tally | sort_images.py:79-144 | `count_moved` plus `count_skipped` never exceeds the number of files |
| Sorter.TallyZero | sort_images.py:79-144 | nothing counts as moved exactly when no file is placed or reported by a dry run, and nothing as skipped exactly when no file is skipped |
| Sorter.TallyUnfold | sort_images.py:137-144 | the counters after a first file are that file's contribution plus the counters of the rest |
| Sorter.TallyAppend | sort_images.py:79-144 | the counters of a walk are the sums of the counters of its pieces |
| Sorter.Outcomes | sort_images.py:79-144 | one outcome per file of the walk, in order. Each outcome is that of the file with its own description, planned against the file system as it was plus every target written by an earlier file |
| Sorter.OutcomesAfter | sort_images.py:79-144 | one outcome per file when walked after a given list of earlier outcomes |
| Sorter.OutcomesAfterEach | sort_images.py:127-135 | each file sees the targets of the earlier outcomes and of every earlier file in the list |
| Sorter.OutcomesOfTwo | sort_images.py:127-135 | of two files, the first sees the file system as it was, and the second sees it with what the first one wrote |
| Sorter.DryRunWritesNothing | sort_images.py:120-142 | a dry run writes no target, so every one of its files sees the file system as it was |
| Sorter.PlacedAt | sort_images.py:116-135 | a sorted candidate of a real run is placed at its planned target in its subfolder |
| Sorter.LaterFileSeesEarlierCopy | sort_images.py:124-135 | when `a` is taken, a real run sends `a` to `a_1` and a following file `a_1` of the same kind to `a_1_1` |
| Sorter.TallyPointwise | sort_images.py:137-144 | files that count alike one by one give the same totals |
| Sorter.DryRunCountsAgree | sort_images.py:121-144 | one file adds the same to both counters in a dry run as in a real run, whatever either of them sees of the file system |
| Sorter.DryRunTallyAgrees | sort_images.py:121-146 | a dry run reports the same totals as a real run in which every copy succeeds |
| Sorter.ParsedLabelIsComponent | sort_images.py:35-119 | a token that parses has no slash, and neither has its label |
| Sorter.BuiltLabelsAreComponents | sort_images.py:68-113 | every label from the command-line ratio list is a single path component |
| Sorter.PlacedLabelIsComponent | sort_images.py:68-119 | the label of a placed file is a single path component |
| Sorter.PlacedLayout | sort_images.py:119-129 | a placed file lands at `<dest>/Ratio_<label>/<tier>/<name>` or at its `_1` name |
| Sorter.DefaultRun | sort_images.py:56-68 | the run keeps destination and dry-run flag, and its criteria are those the default command line builds |
| Sorter.UhdImageIsPlaced | sort_images.py:116-129 | under the criteria the default command line builds, a 3840x2160 candidate is placed in `Ratio_16x9/4K_UHD` at its planned target |
| Sorter.FullHdImageIsSkipped | sort_images.py:104-144 | a 1920x1080 image with the defaults is counted as skipped |
| Sorter.PortraitImageIsSkipped | sort_images.py:104-144 | a 2160x3840 portrait image with the defaults is counted as skipped |
| Sorter.SuperWideImageIsPlaced | sort_images.py:66-129 | the criteria built from `--ratios 16:9 32:9` exist, and with them a 5120x1440 image goes to `Ratio_32x9/QHD_2K` |
| Sorter.EarlierTargetWins | sort_images.py:66-141 | the criteria built from `--ratios 17:10 16:9` exist, and with them a dry run reports a 3840x2160 image under `Ratio_17x10/4K_UHD` |

## Left out

- Running `file` (`subprocess.run`) is left out. Its output is the parameter of `ScanResolution`.
- The exception handler of `get_resolution` is left out. The scan itself raises nothing once output exists.
- `argparse`, the `--source`, `--move` and `--dest` options, and the defaults `.` and
  `Sorted_Images` are left out. The criteria and the destination are parameters.
- `os.walk` is left out, and so is `os.path.abspath`. A walk step is given as its path, its
  absolute path and its file names.
- `os.makedirs` (sort_images.py:72 and sort_images.py:123) is left out. Both calls are outside any `try`, so an
  error there (a file where the directory should be, no permission) ends the run with an
  exception; the model assumes they succeed.
- `shutil.move` and `shutil.copy2` are left out. This is file-system I/O; `Placed`
  records the intended target. For the later `os.path.exists` calls, each placed file's
  target counts as written. A move also removes the source file. The model does not take
  that file out of the view: every target lies under the destination, and the walk reads
  no file there (sort_images.py:84-85).
- Sorter.Tally: counts every `Placed` file as moved (sort_images.py:137), assuming its copy or move
  succeeds. A failure is caught at sort_images.py:138-139, printed, and not counted; that path is
  not modelled. A dry-run report counts as moved (sort_images.py:142), and a rejected file counts as
  skipped (sort_images.py:144), as in the source.
- Console output is left out, including the final `Processed` line (sort_images.py:146), which
  prints the `count_moved` total that `Sorter.Tally` computes.
- `sys.exit(1)` after an invalid ratio is left out. It becomes the `Failure` result of
  `ParseTargets`/`BuildCriteria`. In the same way, the uncaught `ZeroDivisionError` becomes
  the `DivisionByZero` error.
- Floating point is left out. Ratios, quotients and the 0.1 tolerance are exact reals, so
  IEEE rounding at the very edge of the tolerance window is not modelled.
- RatioParser.ParseFloat: values are exact, not rounded to a double. Python turns `1e400`
  into `inf` and `1e-400` into `0.0`, so `1:1e-400` raises `ZeroDivisionError` there,
  while the model reads it as 10^400.
- RatioParser.ParseFloat: accepts only the finite decimal literals that FloatLiteral
  describes. Python's `float` also accepts digit-group underscores, `inf`, `infinity` and
  `nan` in any case, and non-ASCII digits and spaces. The model reports these as format
  errors, although Python reads `1_6:9` as 16/9 and `1:inf` as 0.0.
- ResolutionScanner.MatchAt: only ASCII digits and ASCII whitespace count for `\d` and `\s`.
  Python's `re` also matches other Unicode digits and spaces, which `file` does not print.
- Filters.IsCandidate: `lower()` is modelled on ASCII letters only. Unicode case mapping is
  left out.
- Paths.Join: only one extra argument per call. The three-argument form is two nested calls.
- Windows path rules of `os.path` are left out. POSIX `posixpath` is modelled.

## Findings

| source | as written | input that shows it | evidently intended | confidence | as-written member | corrected member |
|---|---|---|---|---|---|---|
| sort_images.py:83-85 | a directory is skipped when its absolute path starts with the destination's absolute path as plain text | destination `/data/out` and source sibling `/data/out2`: `/data/out2` starts with `/data/out`, so its images are never sorted | skip only the destination and the directories below it (the comment says "avoid scanning destination") | not executed | Filters.SkipDirectoryAsWrittenOvermatches | Filters.FilesToExamineCorrected |
| sort_images.py:20-21 | the output of `file` is cut at its first colon to drop the echoed path | the image `photos/wall:3840x2160.png`, described as `PNG image data, 800 x 600`: the cut leaves `3840x2160.png: PNG image data, 800 x 600`, which is read as 3840 by 2160 | drop the echoed path itself, whatever characters it holds | not executed | ResolutionScanner.ColonPathMisread | ResolutionScanner.ScanResolutionOfFile |

`Filters.SkipDirectoryAsWritten` is the test as written, and `Filters.FilesToExamine`, which
the model of the walk uses, is built on it. `Filters.SkipDirectoryAsWrittenOvermatches`
proves that it skips such a sibling, and `Filters.SkipDirectoryDifference` characterises exactly
which directories it wrongly skips. The corrected `Filters.SkipDirectory` skips the
destination and everything below it (`Filters.SkipDirectoryBelow`) and does not skip siblings
(`Filters.SiblingNotInside`). `Filters.FilesToExamineCorrected` is the walk step built on it.
`Filters.FilesToExamineCorrectedKeeps` proves that the correction changes nothing where the
written test does not skip, and only changes a directory that extends the destination's
name in the middle of a path component.

`ResolutionScanner.ScanResolution` is the scan as written, and `Sorter.ProcessFile` uses it.
`ResolutionScanner.ColonPathMisread` proves that for a path `<dir>:<w>x<h>...` the size is
taken from the path, whatever `file` printed. The corrected
`ResolutionScanner.ScanResolutionOfFile` also receives the path, and drops exactly the
echoed path and its colon. `ResolutionScanner.ScanResolutionOfFileIgnoresPath` proves that
the path then never matters, and `ResolutionScanner.ScanResolutionOfFileAgrees` proves that
it reads the same size as the source for every path without a colon.
