# SEO dashboard core in Dafny

This project models the self-contained logic of the SEO automation dashboard
(`seo.py`):

- `optimize_html_page`, which puts SEO metadata into an HTML page. It makes
  sure the page has a `head`, sets the `title` (or creates one in the head),
  and appends a `description` and a `keywords` `meta` tag to the head.
- The parsing of the comma-separated keyword field into a keyword list.
- The robots.txt address that the robots check builds from a site URL.

The page is modelled as the tree BeautifulSoup builds from it, not as text.

- `dom.dfy` (module `Dom`) holds that tree and its operations.
  - Nodes are elements or text.
  - Nodes are addressed by paths of child indices.
  - `Find` models `soup.head`, `soup.title` and `soup.html`: the first element
    with a given name in document order. `FirstAt` gives an independent,
    path-based definition of "first", and `FindIsFirst` proves the two agree.
  - `ReplaceAt`, `AppendChild` and `PrependChild` model setting `.string`,
    `append` and `insert(0, …)`. The first two come with a frame lemma that
    says exactly which nodes may change. The frame of the insert is stated
    where the script uses it, in `Seo.InsertHeadFacts`.
  - `Count` counts the elements with a given name.
- `pystr.dfy` (module `PyStr`) holds the Python string operations the script
  uses: `str.join`, `str.split` with one separator character, `str.strip()`
  and `str.rstrip(chars)`.
- `seo.dfy` (module `Seo`) holds the script's own logic, one step per
  function, composed in `OptimizeHtmlPage`.
  - A Python `AttributeError` on `None` (`soup.html.insert` with no html
    element, or `soup.head.append` with no head) is the `Err` case of
    `Result`.
  - `Error` says which of the two lookups failed.

The whole-edit lemmas hold for documents where, after the head step, the
first title is not a proper ancestor of the first head. This is the predicate
`AnchorClear`. `AnchorClearExact` proves it is exactly the condition under
which setting the title keeps that head. `HeadInLaterTitleSucceeds` shows a
head inside a later title, which is fine. `HeadInTitleFails` shows a title
enclosing the only head: the edit then fails. For every document, whether the
edit succeeds or fails, and with which error, is stated exactly: `OptimizeHtmlPage`
gives the html error, and `NoHeadExact` gives the head error. Beyond that, a
document whose anchor is not clear has only the two example lemmas
`HeadInTitleFails` and `HeadAfterTitleMoves`.

The function can fail, and it does not always leave exactly one head and one
title:

- With no `<html>` element and no head, `soup.html` is `None` and line 34
  raises (`FragmentFails`).
- `soup.title` and `soup.head` are the first such elements anywhere in the
  document, not children of the root.
  - Extra heads and titles are left alone, unless they lie inside the first
    title.
  - The title that gets set may be outside the head.
- Setting `.string` on a title that encloses the head drops that head. If no
  other head remains, line 47 raises; otherwise the meta tags go to the first
  remaining head. `NoHeadExact` states the first part for every document;
  `HeadInTitleFails` and `HeadAfterTitleMoves` are examples of both.

## Model

| member | source | states |
|---|---|---|
| Dom.Find | seo.py:32 | `soup.head` (likewise `soup.title`, `soup.html`): the result is absent exactly when no element has the name, and otherwise is the first such element in document order |
| Dom.FindIsFirst | seo.py:37 | the search returns a path if and only if that path is the first element with the name, by the path-based definition of document order |
| Dom.ReplaceAtKeepsOutside | seo.py:38 | replacing the title node changes nothing outside its subtree except its ancestors, which keep their name, attributes and number of children |
| Dom.AppendChildKeeps | seo.py:47-48 | `tag.append(x)` keeps every existing node at its path, unchanged except for the tag and its ancestors, and adds new nodes only under the new last child |
| Seo.InsertHeadFacts | seo.py:32-34 | inserting a new head at index 0 of the first html element makes it the first head, keeps the old children after it, and adds exactly one head to the element counts; the top level keeps its length, so nothing else is added |
| Seo.EnsureHead | seo.py:32-34 | fails with the html error exactly when the page has neither a head nor an html element; leaves a page with a head unchanged; otherwise the new empty head is child 0 of the first html element, and nothing else changes or is added |
| Seo.AppendToHead | seo.py:47-48 | `soup.head.append(x)` fails exactly when there is no head; otherwise `x` is the new last child of the first head, which stays first, and nothing else changes |
| Seo.SetTitle | seo.py:37-42 | an existing first title keeps its place, name and attributes and holds just the text; without a title, one is appended to the head, and the result has exactly one title |
| Seo.OptimizeHtmlPage | seo.py:29-50 | fails with the html error exactly when the page has neither head nor html element; succeeds whenever, after the head step, the first title does not enclose the first head |
| Seo.NoHeadExact | seo.py:37-48 | the edit fails with the head error at line 47 if and only if the head step succeeds, the page then has a title, and every head lies inside the first title; line 48 never fails |
| Seo.OptimizeMetas | seo.py:44-48 | the last two children of the head are the description meta and the keywords meta with content `", ".join(keywords)`; when there was no title, the old children and then the new title come before them; otherwise only their number is stated here (`Seo.OptimizeKeepsRest` and `Seo.OptimizeTitle` say what became of them) |
| Seo.OptimizeTitle | seo.py:36-42 | the first title of the result holds exactly the given text; an existing title keeps its path, name and attributes; a created title is the only one and sits in the head |
| Seo.OptimizeCounts | seo.py:29-50 | the edit adds one head (only if there was none), two meta tags and one title (only if there was none), and removes only what was inside the old title |
| Seo.OptimizeKeepsRest | seo.py:29-50 | apart from the head, the title and their ancestors, every node keeps its path and content; new nodes are only the head's new last children and the title's text |
| Seo.OptimizeTwice | seo.py:29-50 | running the edit again on its result succeeds and only appends two more meta tags to the same head; the title count does not change |
| Seo.FragmentFails | seo.py:32-34 | a fragment without html and head elements fails at `soup.html.insert` |
| Seo.HeadInTitleFails | seo.py:37-47 | a head inside the only title is dropped when the title's text is set, and appending the meta tags fails |
| Seo.HeadAfterTitleMoves | seo.py:37-48 | a head inside the first title is dropped when the title is set, and when another head follows, the meta tags are appended to it and the edit succeeds |
| Seo.AnchorClearExact | seo.py:37-47 | once the head step has succeeded, setting the title keeps the first head if and only if the first title is not a proper ancestor of it |
| Seo.HeadInLaterTitleSucceeds | seo.py:37-48 | a head inside a title that is not the first one is untouched by the title step, and the edit succeeds |
| PyStr.Join | seo.py:45 | `", ".join` of an empty list is the empty string, and of one keyword is that keyword |
| PyStr.Split | seo.py:86 | `split(",")` gives one piece more than there are commas, no piece holds a comma, and joining the pieces with commas gives back the input |
| PyStr.SplitJoin | seo.py:86 | splitting a comma-join of comma-free pieces gives back the pieces |
| PyStr.SplitUnique | seo.py:86 | the pieces of a split are the only non-empty comma-free list that joins back to the input |
| PyStr.Strip | seo.py:86 | `strip()` leaves no whitespace at either end and removes only surrounding whitespace |
| PyStr.StripUnique | seo.py:86 | stripping a trimmed string surrounded by whitespace gives exactly that string |
| PyStr.StripNoNewChar | seo.py:86 | stripping cannot introduce a character, so stripped keywords stay comma-free |
| PyStr.StripEnd | seo.py:54 | `rstrip` gives a prefix of the input whose removed tail is all strippable characters and whose last character is not strippable |
| PyStr.StripEndUnique | seo.py:54 | that prefix is the only one with those properties |
| Seo.ParseKeywords | seo.py:86 | one keyword per comma-separated field, as many as there are commas plus one, each trimmed, comma-free and equal to its field minus surrounding whitespace; an empty input gives `[""]` |
| Seo.ParseKeywordsContent | seo.py:97 | parsing the keywords meta content gives back a non-empty list of trimmed, comma-free keywords |
| Seo.ParseKeywordsStable | seo.py:97 | joining parsed keywords with `", "` and parsing again changes nothing |
| Seo.RobotsUrl | seo.py:54 | the address ends in `/robots.txt`, and what precedes it is the URL minus its trailing slashes, with no trailing slash left |
| Seo.RobotsUrlOf | seo.py:54 | a base without a trailing slash followed by any run of slashes gives exactly the base's robots.txt address |
| Seo.RobotsUrlTrailingSlash | seo.py:54 | adding a slash to the site URL does not change the robots.txt address |

## Left out

- Parsing markup text into the tree and serialising it back (`BeautifulSoup(html, "html.parser")` and `str(soup)`, seo.py:30 and seo.py:50): the edit is modelled on the parsed tree. How the parser repairs malformed markup is not modelled, and comments and doctypes are plain text nodes.
- The search-suggestion request (`get_google_autocomplete_suggestions`) and the text-generation call (`generate_blog_post`): these are network calls with no logic of their own to model.
- The HTTP request, status test and exception handling of `check_robots_txt` (seo.py:55-58): only the address it requests is modelled.
- The Streamlit page layout, widgets, session state and export tab (seo.py:60-113): these are UI and I/O.
- Seo.OptimizeMetas, Seo.OptimizeTitle, Seo.OptimizeCounts, Seo.OptimizeKeepsRest and Seo.OptimizeTwice: stated only for documents with a clear anchor, where after the head step the first title is not a proper ancestor of the first head. In every other document, setting the title text deletes that head (`Seo.AnchorClearExact`), and the run either fails or appends to a later head (`Seo.NoHeadExact` says which).
- Seo.OptimizeKeepsRest: states the frame relative to the document after the head is inserted. When a head is inserted, the html element's old children shift one index later, as `Seo.EnsureHead` states.
- Python strings are modelled as sequences of code points. Strings are not NFC-normalised and not encoded.
