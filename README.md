# Django template converter — verified model of its core

`django_template.py` turns a static HTML site into a Django app: it copies the
assets an `index.html` references into the app's static directory, rewrites the
references to `{% static %}` tags, rewrites `url(...)` references inside the
copied stylesheets, finds comment-delimited sections (`<!-- Hero Start -->` …
`<!-- Hero End -->`), extracts their markup, and turns navbar links to `X.html`
into `{% url 'X' %}` references while remembering the pages as menu items.

This project models the decision logic of that converter in Dafny and proves
what it guarantees.

| file | module | models |
|---|---|---|
| `wrappers.dfy` | `Wrappers` | `Option` |
| `strings.dfy` | `Strings` | the Python `str` operations used: `strip`, `in`, `startswith`/`endswith`, `split(' ')[0]`, `split('?', 1)`, `rsplit('.', 1)[0]`, `replace` |
| `sanitize.dfy` | `Sanitize` | `sanitize_filename` |
| `static_refs.dfy` | `StaticRefs` | `process_static_file`, `scan_css_for_static_files` and `replace_with_static` as functions from the inputs to the new text and the file effects (copies and writes) |
| `sections.dfy` | `Sections` | the fold of `analyze_template` and the sibling walk of `extract_section`, as functions |
| `navbar.dfy` | `Navbar` | `replace_href` and the rewrite of `update_navbar_links_in_content`, as functions |
| `converter.dfy` | `Converter` | the class `DjangoTemplateConverter` with its `sections` and `menu_items` fields and a ghost log of file effects; its loop methods are proved equal to the functions above |

Library calls the converter makes are fields of the `Env` datatype, so the model
makes no assumption about them. The converter is given its `Env` when it is made,
along with `app_name`, `index_dir` and `static_dir`:
- `os.path.normpath(os.path.join(..))`, `dirname` and `relpath`;
- the scheme test of `urlparse`;
- the set of paths for which `os.path.exists` holds (`Env.existing`);
- the reading and `url(...)` scanning of a stylesheet.

A BeautifulSoup document is a flat sequence of sibling nodes
(`Comment(text)` or `Other(markup)`). The comments `analyze_template` visits
are a sequence of strings. The navbar content is a sequence of text pieces and
`href` matches.

The model follows the code, including where its behaviour may be unexpected:
- A section whose `Start` comment has no matching `End` comment is not an error.
  `extract_section` returns everything after the start, up to the last sibling
  (`SectionTextUnterminated`).
- Markers are found by substring containment, not by equality. So a comment
  containing both `Start` and `End` counts as a start (`StartWinsOverEnd`).
- A repeated `Start` rebinds its section and drops any recorded end
  (`StartRebinds`).
- Nothing checks whether two references sanitize to the same destination. Both
  copies happen, in order, and both appear in the effect log.
- The walk of `extract_section` runs `while comment:`, so it also stops at a
  false sibling. A false sibling is an empty text node or an empty comment
  (`StopsWalk`).

## Model

| member | source | states |
|---|---|---|
| Sanitize.SanitizeFilename | django_template.py:24-26 | the length is kept; each allowed character (ASCII word character, `-`, `_`, `.`, `/`, `\`) is unchanged; every other character becomes `_` |
| Sanitize.SanitizedIsAllowed | django_template.py:26 | every character of a sanitized name is allowed |
| Sanitize.SanitizeIdempotent | django_template.py:24-26 | sanitizing twice equals sanitizing once |
| Sanitize.SanitizeFixedPoint | django_template.py:26 | a name is left unchanged exactly when all its characters are allowed |
| Sanitize.SanitizeKeepsSeparators | django_template.py:25-26 | `/` and `\` stay in place and none is introduced, so the directory structure survives |
| Sanitize.SanitizeConcat | django_template.py:26 | sanitizing works character by character, so it distributes over concatenation |
| Strings.TrimLeftSpec | django_template.py:114 | `lstrip` keeps a suffix that starts with non-whitespace, and everything it drops is whitespace |
| Strings.TrimRightSpec | django_template.py:114 | `rstrip` keeps a prefix that ends with non-whitespace, and everything it drops is whitespace |
| Strings.ContainsStrip | django_template.py:114-115 | for a non-empty string without whitespace, such as `Start` or `End`, occurring in the stripped text is the same as occurring in the text |
| Strings.FirstField | django_template.py:116 | `split(' ')[0]` is the longest prefix without a space; it is followed by a space unless it is the whole string |
| Strings.IndexOf | django_template.py:85 | the first occurrence of a character, or the length when the character does not occur |
| Strings.BeforeLast | django_template.py:228 | `rsplit(c, 1)[0]`: when `c` occurs, a prefix of the input followed by a `c` with no `c` after it; otherwise the whole input |
| Strings.BeforeLastAt | django_template.py:228 | the part before the last `c` ends exactly at the last occurrence of `c` |
| Strings.ReplaceChar | django_template.py:100 | `replace("\\", "/")` maps each character independently and keeps the length |
| StaticRefs.SplitQuery | django_template.py:85-87 | the file path contains no `?`; the parameters are empty or start with `?`; path followed by parameters is exactly the URL |
| StaticRefs.PublicPath | django_template.py:100 | the public path of a copied file contains no backslash |
| StaticRefs.CssUrl | django_template.py:102 | a rewritten occurrence starts with `url("` and ends with the URL parameters verbatim, followed by `")` |
| StaticRefs.ReplaceWithStatic | django_template.py:77-105 | the definition of `replace_with_static` (no contract of its own); its properties are `ReplaceWithStaticSpec` and `ReplaceWithStaticRewrites` |
| StaticRefs.ReplaceWithStaticSpec | django_template.py:77-105 | absolute URLs, data URIs and fragments are echoed exactly and copy nothing; a match that copies nothing is echoed exactly; otherwise exactly one existing file is copied, from the path the reference resolves to, to the static directory under its sanitized index-relative name, and the text is `url("<public path of that copy><params>")` |
| StaticRefs.ReplaceWithStaticRewrites | django_template.py:80-105 | a match is rewritten exactly when it is local and the file it resolves to exists |
| StaticRefs.RewriteCss | django_template.py:67-71 | the definition of the `re.sub` over a stylesheet (no contract of its own); its properties are `RewriteCssSpec` and `RewriteCssConcat` |
| StaticRefs.RewriteCssSpec | django_template.py:67-71 | rewriting a stylesheet only copies existing files; if no match copies anything, the stylesheet comes out exactly as it went in |
| StaticRefs.RewriteCssConcat | django_template.py:67-71 | rewriting a stylesheet is done match by match: the rewrite of a concatenation is the concatenation of the rewrites, for both the text and the effects |
| StaticRefs.ScanCss | django_template.py:62-75 | the definition of `scan_css_for_static_files` as the effects it has (no contract of its own); its properties are `ScanCssSpec` |
| StaticRefs.ScanCssSpec | django_template.py:62-75 | scanning a stylesheet copies only existing files, then writes the rewritten stylesheet over its own copy in the static directory |
| StaticRefs.Rewritable | django_template.py:44-50 | the definition of the conditions of lines 45 and 50 (no contract of its own); used by `ProcessStaticFileSpec` |
| StaticRefs.NewAttrValue | django_template.py:43-55 | the definition of the attribute value `process_static_file` leaves (no contract of its own); its properties are `ProcessStaticFileSpec` |
| StaticRefs.AttrEffects | django_template.py:43-60 | the definition of the copies and writes of `process_static_file` (no contract of its own); its properties are `ProcessStaticFileSpec` |
| StaticRefs.ProcessStaticFileSpec | django_template.py:43-60 | the attribute changes, and files are copied, exactly when the attribute is present, non-empty, has no scheme and names an existing file; the first effect then copies that file to the static directory under its sanitized name; more effects follow exactly for a stylesheet |
| StaticRefs.ProcessTag | django_template.py:35-41 | the definition of one iteration of `find_and_copy_static_files` on the element (no contract of its own); its properties are `ProcessTagFrame` |
| StaticRefs.TagEffects | django_template.py:35-41 | the definition of the effects of that iteration (no contract of its own); its properties are `ProcessTagFrame` |
| StaticRefs.ProcessTagFrame | django_template.py:35-41 | only the element's own reference attribute (`href` of a stylesheet link, `src` of a script or image) can change; other elements are untouched and copy nothing; the attribute changes exactly when it is rewritable |
| StaticRefs.ProcessTags | django_template.py:32-41 | the definition of the elements after `find_and_copy_static_files` (no contract of its own); its properties are `ProcessTagsUntouched`, and `FindAndCopyStaticFiles` is proved equal to it |
| StaticRefs.TagsEffects | django_template.py:32-41 | the definition of the effects of `find_and_copy_static_files`, element after element (no contract of its own); `FindAndCopyStaticFiles` is proved to log exactly these |
| StaticRefs.ProcessTagsUntouched | django_template.py:32-45 | when no element has a rewritable reference, no element changes and no file is copied or written |
| Sections.Classify | django_template.py:113-123 | the marker a comment is, as the `if`/`elif` of lines 115-123 decides it from the stripped text and the name (this contract only reads that decision back); what it means for the comment itself is `ClassifyByContainment` |
| Sections.NameOfNonBlank | django_template.py:116 | the name of a comment with non-blank text is non-empty, has no space and starts the stripped text |
| Sections.ClassifyByContainment | django_template.py:113-123 | a comment is a start exactly when its text contains `Start`, and an end exactly when it contains `End` but not `Start`; the name is then non-empty, so the `if section_name` tests never fail |
| Sections.Step | django_template.py:114-123 | the definition of one iteration of the loop of `analyze_template` (no contract of its own); its properties are `StepEntry`, `StartRebinds`, `StartWinsOverEnd` and `EndWithoutStartIgnored` |
| Sections.Fold | django_template.py:113-124 | the definition of the loop of `analyze_template` over markers (no contract of its own); its properties are `FoldDescribes` |
| Sections.Analyze | django_template.py:107-124 | the definition of `analyze_template` over the comments (no contract of its own); its properties are `SectionNamesComeFromStarts` and `AnalyzeEntry` |
| Sections.StepEntry | django_template.py:113-124 | one step of the fold keeps the per-section entry invariant (`start` is the last opening marker; `end` is the last closing marker after it) |
| Sections.StepDescribes | django_template.py:113-124 | one step of the fold keeps the invariant for the whole map |
| Sections.FoldDescribes | django_template.py:113-124 | the fold from no sections describes every marker it has seen |
| Sections.SectionNamesComeFromStarts | django_template.py:114-118 | a name is recorded exactly when some comment containing `Start` has it as its non-empty first token |
| Sections.AnalyzeEntry | django_template.py:118-123 | a recorded `start` is the last comment opening the section; a recorded `end` is the last comment closing it after that start, so `start < end < number of comments`; with no such comment there is no `end` |
| Sections.StartRebinds | django_template.py:115-118 | a later start replaces the entry with one that has no end; the other sections are kept |
| Sections.StartWinsOverEnd | django_template.py:115-120 | a comment containing both `Start` and `End` acts as a start |
| Sections.EndWithoutStartIgnored | django_template.py:120-123 | an end for a name not yet recorded changes nothing |
| Sections.FirstComment | django_template.py:130-134 | the index found is that of the first comment containing the marker; with none found, no comment contains it |
| Sections.StopIndex | django_template.py:138-141 | the walk passes only siblings that are true and are not end comments, and stops at the first sibling that is one, or at the end of the list |
| Sections.MarkupConcat | django_template.py:142-143 | the collected markup of a concatenation is the concatenation of the collected markups |
| Sections.MarkupOfComments | django_template.py:142 | comments contribute no markup |
| Sections.SectionText | django_template.py:126-145 | the definition of `extract_section` (no contract of its own); its properties are `SectionTextNoStart`, `SectionTextUnterminated` and `HeroExample`, and `ExtractSection` is proved equal to it |
| Sections.SectionTextNoStart | django_template.py:135-145 | with no comment containing `<name> Start`, the extracted text is empty |
| Sections.SectionTextUnterminated | django_template.py:137-144 | an unterminated section extracts everything after its start comment, up to the last sibling |
| Sections.HeroExample | django_template.py:126-145 | `[Comment("Hero Start"), Other("A"), Comment("Hero End")]` yields `"A"` for `Hero` |
| Navbar.ReplaceHref | django_template.py:225-233 | a value whose stripped form is `X.html` becomes `href="{% url 'X' %}"`; any other value is echoed as `href="<value>"` |
| Navbar.BeforeLastHtml | django_template.py:227-228 | for a link ending in `.html`, `rsplit('.', 1)[0]` is the link without that final `.html` |
| Navbar.CapturedIsPageLink | django_template.py:226-227 | every value the `href` pattern captures ends in `.html`, stays so after stripping, and is therefore rewritten |
| Navbar.LinkedIff | django_template.py:231 | a link is added to `menu_items` exactly when some match is a page link with that stripped value |
| Navbar.LinkedArePages | django_template.py:227-231 | every menu item ends with `.html` |
| Navbar.Render | django_template.py:225-235 | the definition of the rewritten content (no contract of its own); its properties are `RenderUnchanged` and `AboutExample`, and `UpdateNavbarLinksInContent` is proved to return it |
| Navbar.Linked | django_template.py:231 | the definition of the links recorded in `menu_items` (no contract of its own); its properties are `LinkedIff` and `LinkedArePages` |
| Navbar.RenderUnchanged | django_template.py:233-235 | content without page links comes out exactly as it went in, and adds no menu item |
| Navbar.AboutIsPage | django_template.py:226-229 | `about.html` is a page link and becomes `{% url 'about' %}` |
| Navbar.AboutExample | django_template.py:225-235 | `<a href="about.html">` becomes `<a href="{% url 'about' %}">` |
| Navbar.AboutMenuItem | django_template.py:231 | that rewrite records exactly `about.html` as a menu item |
| Converter.DjangoTemplateConverter.constructor | django_template.py:9-18 | a new converter keeps the `Env` it is given (with `app_name`, `index_dir` and `static_dir`) and has no sections and no menu items |
| Converter.DjangoTemplateConverter.FindAndCopyStaticFiles | django_template.py:32-41 | each element of the array is replaced, in place, by its processed form; the effect log grows by the effects of the elements, in order |
| Converter.DjangoTemplateConverter.ProcessElement | django_template.py:35-60 | one element is processed in place, the others are unchanged, and its effects are appended to the log |
| Converter.DjangoTemplateConverter.AnalyzeTemplate | django_template.py:107-124 | the new `sections` is the fold of the comments' markers over the old `sections` |
| Converter.DjangoTemplateConverter.AnalyzeComment | django_template.py:114-123 | one iteration updates `sections` as the comment's marker says |
| Converter.DjangoTemplateConverter.ExtractSection | django_template.py:126-145 | the result is the section text: empty without a start comment, otherwise the markup walked from the start comment |
| Converter.DjangoTemplateConverter.CollectUntil | django_template.py:137-144 | the walk collects the markup of the non-comment siblings up to where it stops |
| Converter.DjangoTemplateConverter.UpdateNavbarLinksInContent | django_template.py:220-236 | the result is the rewritten content, and `menu_items` grows by exactly the linked pages |
| Converter.DjangoTemplateConverter.ReplacePiece | django_template.py:235 | text between matches is kept; a match is replaced as `replace_href` does |
| Converter.DjangoTemplateConverter.ReplaceHrefAndRecord | django_template.py:225-233 | returns the replacement of one match and adds its stripped link to `menu_items` when it names a page |

## Left out

- The file system is not modelled. `setup_directories`, `read_index_file`, `create_template_file`, `os.makedirs`, `shutil.copy2` and reading or writing files are outside the model. Copies and stylesheet writes are recorded in a ghost log of effects; existence is the fixed set `Env.existing`, to which the files the converter itself creates are not added.
- `os.path.normpath`, `os.path.join`, `os.path.dirname`, `os.path.relpath` and `urlparse(...).scheme` are not re-implemented. They are uninterpreted fields of `Env`. `Env.hasScheme` stands for `urlparse(p).scheme != ""`. That is close to the scheme syntax of section 3.1 of RFC 3986, but `urlsplit` first strips leading C0 control characters and spaces and removes tab and newline characters; no property of the model depends on the exact test.
- BeautifulSoup is not modelled: parsing, `find_all`, `next_sibling` and `str(node)`. The document is one flat sequence of siblings, so a start comment nested below the top level is not looked for. The elements `find_and_copy_static_files` visits are an array of `Tag` values.
- The `url(...)` regular expression of `scan_css_for_static_files`, with its gradient look-ahead, is not modelled. A stylesheet is given already split into text and matches (`Env.stylesheet`), and only the replacement of each match is modelled.
- StaticRefs.ReplaceWithStatic: `Env.existing` is the set of paths for which `os.path.exists` holds, directories included, and the model treats each of them as a file `shutil.copy2` can copy. A reference that resolves to an existing directory (`url()` gives an empty path, which joins to the stylesheet's directory) makes `shutil.copy2` raise `IsADirectoryError` and stops the program; the model records a copy instead.
- StaticRefs.Rewritable: the same holds for an attribute such as `src="."`, which resolves to the index file's directory; the program raises where the model records a copy.
- StaticRefs.Rewritable: `urlparse` raises `ValueError` on a reference whose network location has an unbalanced `[` (such as `<img src="//[x">`), which stops the program at `process_static_file`; `Env.hasScheme` is total, so the model leaves such an attribute alone or rewrites it.
- StaticRefs.AttrEffects: records the copy of a directory reference, where the program raises.
- Sanitize.SanitizeFilename: `\w` is taken as ASCII letters, digits and `_`. Python's `\w` on `str` also accepts non-ASCII letters and digits, which the model would replace by `_`.
- The `href` regular expression of `update_navbar_links_in_content` is not modelled. The content is given already split into text and `href` matches.
- `update_navbar_links`, `create_urls_file`, `create_views_file` and `convert_to_django_templates` are fixed Django boilerplate over files and the unordered `menu_items` set. They are not modelled.
- `print` diagnostics are not modelled.
- Strings are sequences of characters. No encoding is modelled, and `IsSpace` lists the whitespace code points that `str.isspace` accepts.
