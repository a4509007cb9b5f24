/** Blog posts: creating, editing and deleting them (admin only), the code
    block `addpost` appends to a post, and the public views of a post and of
    a search. */
module Content {
  import opened Records
  import opened Text

  // ---------------------------------------------------------------------
  // The fenced code block addpost appends

  const CodeOpen: string := "\n<pre><code class=\"language-"
  const CodeMid: string := "\">"
  const CodeClose: string := "</code></pre>"

  /** The HTML block addpost appends: a new line, then `code` in a `pre` and
      `code` element whose class names the language. */
  function CodeBlock(language: string, code: string): (r: string)
    ensures CodeOpen <= r
    ensures |r| == |CodeOpen| + |language| + |CodeMid| + |code| + |CodeClose|
    ensures r[|r| - |CodeClose|..] == CodeClose
  {
    CodeOpen + language + CodeMid + code + CodeClose
  }

  /** The content addpost stores: the submitted content, followed by a code
      block when the submitted code (default '', stripped) is non-empty; the
      language defaults to 'python'. */
  function WithCode(content: string, code: Option<string>, language: Option<string>): (r: string)
    ensures content <= r
    ensures r == content <==> Strip(code.GetOr("")) == ""
  {
    var c := Strip(code.GetOr(""));
    if c == "" then content else content + CodeBlock(language.GetOr("python"), c)
  }

  /** Position of the first `c` in `s`. */
  function IndexOf(s: string, c: char): (r: Option<nat>)
    ensures r.None? <==> c !in s
    ensures r.Some? ==> r.value < |s| && s[r.value] == c && c !in s[..r.value]
  {
    if s == [] then None
    else if s[0] == c then Some(0)
    else match IndexOf(s[1..], c)
      case None => None
      case Some(i) =>
        assert s[..i + 1] == [s[0]] + s[1..][..i];
        Some(i + 1)
  }

  /** Reads a code block back: its language (up to the first quote) and its code. */
  function ParseCodeBlock(block: string): Option<(string, string)> {
    var n := |block|;
    if n < |CodeOpen| + |CodeClose| || !(CodeOpen <= block) || block[n - |CodeClose|..] != CodeClose then None
    else
      var body := block[|CodeOpen|..n - |CodeClose|];
      match IndexOf(body, '"')
      case None => None
      case Some(q) =>
        if CodeMid <= body[q..] then Some((body[..q], body[q + |CodeMid|..])) else None
  }

  /** Between the delimiters, the first quote ends the language and the
      code follows the closing `">`. */
  lemma CodeBodySplits(language: string, code: string)
    requires '"' !in language
    ensures var body := language + CodeMid + code;
            && IndexOf(body, '"') == Some(|language|)
            && body[..|language|] == language
            && CodeMid <= body[|language|..]
            && body[|language| + |CodeMid|..] == code
  {
    var body := language + CodeMid + code;
    assert body[|language|] == '"';
    assert body[..|language|] == language;
    assert body[|language|..] == CodeMid + code;
  }

  /** The parts of `open + body + close`, read back by position. */
  lemma Unframe(open: string, body: string, close: string)
    ensures var block := open + body + close;
            && open <= block
            && block[|open|..|block| - |close|] == body
            && block[|block| - |close|..] == close
  {
    var block := open + body + close;
    assert block[..|open|] == open;
    assert block[|open|..|block| - |close|] == body;
    assert block[|block| - |close|..] == close;
  }

  /** A code block whose language has no quote reads back as what was written. */
  lemma CodeBlockRoundTrip(language: string, code: string)
    requires '"' !in language
    ensures ParseCodeBlock(CodeBlock(language, code)) == Some((language, code))
  {
    var body := language + CodeMid + code;
    assert CodeBlock(language, code) == CodeOpen + body + CodeClose;
    Unframe(CodeOpen, body, CodeClose);
    CodeBodySplits(language, code);
  }

  /** What addpost appends after the submitted content reads back as the
      chosen language and the stripped code. */
  lemma AppendedCodeReadsBack(content: string, code: Option<string>, language: Option<string>)
    requires Strip(code.GetOr("")) != ""
    requires '"' !in language.GetOr("python")
    ensures ParseCodeBlock(WithCode(content, code, language)[|content|..])
         == Some((language.GetOr("python"), Strip(code.GetOr(""))))
  {
    var block := CodeBlock(language.GetOr("python"), Strip(code.GetOr("")));
    assert WithCode(content, code, language)[|content|..] == block;
    CodeBlockRoundTrip(language.GetOr("python"), Strip(code.GetOr("")));
  }

  // ---------------------------------------------------------------------
  // Reading time

  /** Python's `round(n / 200)`: the nearest integer, ties to the even one. */
  function RoundDiv200(n: nat): (r: nat)
    ensures n - 100 <= 200 * r <= n + 100
    ensures 200 * r == n - 100 || 200 * r == n + 100 ==> r % 2 == 0
  {
    var q, m := n / 200, n % 200;
    if m < 100 then q
    else if m > 100 then q + 1
    else if q % 2 == 0 then q
    else q + 1
  }

  /** `max(1, round(word_count / 200))`. */
  function ReadingMinutes(wordCount: nat): (r: nat)
    ensures r >= 1
    ensures RoundDiv200(wordCount) >= 1 ==> r == RoundDiv200(wordCount)
    ensures RoundDiv200(wordCount) == 0 ==> r == 1
  {
    var m := RoundDiv200(wordCount);
    if m < 1 then 1 else m
  }

  /** The reading time the post page shows, from the post's word count. */
  function ReadingTime(content: string): (r: nat)
    ensures r >= 1
    ensures r == ReadingMinutes(|WordStarts(content)|)
  {
    WordCount(content);
    ReadingMinutes(|Words(content)|)
  }

  /** Content made of `ws` separated by single spaces reads in the time of
      `|ws|` words. */
  lemma ReadingTimeOfWords(ws: seq<string>)
    requires forall w :: w in ws ==> w != [] && NoSpace(w)
    ensures ReadingTime(JoinWords(ws)) == ReadingMinutes(|ws|)
  {
    WordsOfJoin(ws);
  }

  lemma RoundStep(n: nat)
    ensures RoundDiv200(n) <= RoundDiv200(n + 1)
  {
    if n % 200 < 199 {
      assert (n + 1) / 200 == n / 200 && (n + 1) % 200 == n % 200 + 1;
    } else {
      assert (n + 1) / 200 == n / 200 + 1 && (n + 1) % 200 == 0;
    }
  }

  /** More words never mean less reading time. */
  lemma {:induction false} ReadingMinutesMonotone(a: nat, b: nat)
    requires a <= b
    ensures ReadingMinutes(a) <= ReadingMinutes(b)
    decreases b - a
  {
    if a < b {
      RoundStep(a);
      ReadingMinutesMonotone(a + 1, b);
    }
  }

  /** Halfway cases go to the even number: 300 words read in 2 minutes, 500
      words in 2 as well, 700 in 4; up to 299 words read in 1. */
  lemma ReadingMinutesTies()
    ensures ReadingMinutes(100) == 1 && ReadingMinutes(299) == 1
    ensures ReadingMinutes(300) == 2 && ReadingMinutes(500) == 2 && ReadingMinutes(700) == 4
  {
  }

  // ---------------------------------------------------------------------
  // The post page

  /** The filter of the related-posts query: another post of `category`. */
  function OtherInCategory(blogs: map<Id, Blog>, id: Id, category: string): Id -> bool {
    k => k in blogs && blogs[k].category == category && k != id
  }

  /** The other posts of `category`, in storage order. */
  function Candidates(blogs: map<Id, Blog>, order: seq<Id>, id: Id, category: string): seq<Id> {
    Select(order, OtherInCategory(blogs, id, category))
  }

  datatype PostView = PostView(post: Blog, readingTime: nat, related: seq<Id>)

  /** `post(id)`: the post, its reading time and up to three related posts
      (same category, not the post itself, `limit(3)`); None is the 404. */
  function ViewPost(blogs: map<Id, Blog>, order: seq<Id>, id: Id): (r: Option<PostView>)
    ensures r.None? <==> id !in blogs
    ensures r.Some? ==> r.value.post == blogs[id] && r.value.readingTime == ReadingTime(blogs[id].content)
    ensures r.Some? ==> |r.value.related| <= 3
    ensures r.Some? ==> forall k :: k in r.value.related ==>
              k in blogs && blogs[k].category == blogs[id].category && k != id
  {
    if id !in blogs then None
    else
      var post := blogs[id];
      var c := Candidates(blogs, order, id, post.category);
      var related := if |c| <= 3 then c else c[..3];
      assert forall k :: k in related ==> k in c;
      Some(PostView(post, ReadingTime(post.content), related))
  }

  /** On a duplicate-free order, a filter keeps as many ids as the set it selects. */
  lemma {:induction false} SelectCount(order: seq<Id>, keep: Id -> bool)
    requires forall i, j :: 0 <= i < j < |order| ==> order[i] != order[j]
    ensures |Select(order, keep)| == |set k | k in order && keep(k)|
  {
    if order != [] {
      var tail := order[1..];
      SelectCount(tail, keep);
      var all := set k | k in order && keep(k);
      var rest := set k | k in tail && keep(k);
      assert order[0] !in tail;
      if keep(order[0]) {
        assert all == rest + {order[0]};
      } else {
        assert all == rest;
      }
    }
  }

  /** The post page shows every other post of the same category when there
      are at most three of them, and exactly three otherwise. */
  lemma RelatedCount(blogs: map<Id, Blog>, order: seq<Id>, id: Id)
    requires Lists(order, blogs) && id in blogs
    ensures var others := set k | k in blogs && blogs[k].category == blogs[id].category && k != id;
            var related := ViewPost(blogs, order, id).value.related;
            && |related| == (if |others| <= 3 then |others| else 3)
            && (|others| <= 3 ==> (set k | k in related) == others)
  {
    var cat := blogs[id].category;
    var keep := OtherInCategory(blogs, id, cat);
    SelectCount(order, keep);
    var selected := set k | k in order && keep(k);
    var others := set k | k in blogs && blogs[k].category == cat && k != id;
    assert selected == others by {
      forall k ensures k in selected <==> k in others {
        assert keep(k) == (k in blogs && blogs[k].category == cat && k != id);
      }
    }
  }

  // ---------------------------------------------------------------------
  // Search

  /** The query occurs in the title, the content or the tags. */
  predicate Matches(b: Blog, q: string)
    ensures q == [] ==> Matches(b, q)
    ensures Matches(b, q) ==> |q| <= |b.title| || |q| <= |b.content| || |q| <= |b.tags|
  {
    Contains(b.title, q) || Contains(b.content, q) || Contains(b.tags, q)
  }

  /** `search?q=`: nothing for an empty query, otherwise the matching posts in
      storage order. */
  function Search(blogs: map<Id, Blog>, order: seq<Id>, q: string): (r: seq<Id>)
    ensures q == "" ==> r == []
    ensures q != "" ==> forall k :: k in r <==> k in order && k in blogs && Matches(blogs[k], q)
  {
    if q == "" then [] else Select(order, k => k in blogs && Matches(blogs[k], q))
  }

  /** The query is a slice of the title, the content or the tags. */
  ghost predicate Mentions(b: Blog, q: string) {
    || (exists i: nat :: OccursAt(b.title, q, i))
    || (exists i: nat :: OccursAt(b.content, q, i))
    || (exists i: nat :: OccursAt(b.tags, q, i))
  }

  /** Over the whole table, a non-empty query finds exactly the posts that
      mention it. */
  lemma SearchExact(blogs: map<Id, Blog>, order: seq<Id>, q: string)
    requires Lists(order, blogs) && q != ""
    ensures forall k :: k in Search(blogs, order, q) <==> k in blogs && Mentions(blogs[k], q)
  {
    forall k | k in blogs ensures Matches(blogs[k], q) <==> Mentions(blogs[k], q) {
      ContainsIff(blogs[k].title, q);
      ContainsIff(blogs[k].content, q);
      ContainsIff(blogs[k].tags, q);
    }
  }

  // ---------------------------------------------------------------------
  // Creating, editing and deleting posts (admin only)

  /** The fields of the post form: title and content are required, category
      and tags may be missing. */
  datatype PostForm = PostForm(title: string, content: string, category: Option<string>, tags: Option<string>)

  /** `addpost` (POST): a new post written by the acting admin, dated `now`,
      with the code block appended; `image` is the stored upload's file name. */
  ghost function AddPost(db: Db, p: Principal, form: PostForm, code: Option<string>,
                         language: Option<string>, image: Option<string>, now: Time): (r: Step)
    ensures !IsAdmin(db, p) ==> r == Step(db, Gate(db, p, BlogList).value)
    ensures IsAdmin(db, p) ==>
      var id := NextId(db.blogs.Keys);
      && r.out == Ok(BlogList)
      && r.db == db.(blogs := r.db.blogs)
      && Inserted(db.blogs, r.db.blogs, id)
      && r.db.blogs[id] == Blog(form.title, db.users[p.value].username, now,
                                WithCode(form.content, code, language), image,
                                form.category.GetOr("General"), form.tags.GetOr(""))
  {
    match Gate(db, p, BlogList)
    case Some(denied) => Step(db, denied)
    case None =>
      var post := Blog(form.title, db.users[p.value].username, now,
                       WithCode(form.content, code, language), image,
                       form.category.GetOr("General"), form.tags.GetOr(""));
      var id := NextId(db.blogs.Keys);
      InsertAt(db.blogs, id, post);
      Step(db.(blogs := db.blogs[id := post]), Ok(BlogList))
  }

  /** `updatepost/<id>` (POST): every field is overwritten, the author becomes
      the acting admin and the date `now`; the image changes only when a file
      came with the form. No code block is appended here. The row is looked up
      with `first()`, not `get_or_404`: the id must exist. */
  function UpdatePost(db: Db, p: Principal, id: Id, form: PostForm, image: Option<string>, now: Time): (r: Step)
    requires IsAdmin(db, p) ==> id in db.blogs
    ensures !IsAdmin(db, p) ==> r == Step(db, Gate(db, p, BlogList).value)
    ensures IsAdmin(db, p) ==>
      && r.out == Ok(BlogList)
      && r.db == db.(blogs := r.db.blogs)
      && UpdatedOnly(db.blogs, r.db.blogs, id)
      && r.db.blogs[id] == Blog(form.title, db.users[p.value].username, now, form.content,
                                if image.Some? then image else db.blogs[id].image,
                                form.category.GetOr("General"), form.tags.GetOr(""))
  {
    match Gate(db, p, BlogList)
    case Some(denied) => Step(db, denied)
    case None =>
      var post := db.blogs[id].(
        title := form.title,
        author := db.users[p.value].username,
        content := form.content,
        category := form.category.GetOr("General"),
        tags := form.tags.GetOr(""),
        postDate := now,
        image := if image.Some? then image else db.blogs[id].image);
      Step(db.(blogs := db.blogs[id := post]), Ok(BlogList))
  }

  /** `deletepost/<id>`: the post is removed, nothing else; as in
      `UpdatePost`, the id must exist. */
  function DeletePost(db: Db, p: Principal, id: Id): (r: Step)
    requires IsAdmin(db, p) ==> id in db.blogs
    ensures !IsAdmin(db, p) ==> r == Step(db, Gate(db, p, BlogList).value)
    ensures IsAdmin(db, p) ==>
      && r.out == Ok(BlogList)
      && r.db == db.(blogs := r.db.blogs)
      && r.db.blogs.Keys == db.blogs.Keys - {id}
      && (forall k :: k in r.db.blogs ==> r.db.blogs[k] == db.blogs[k])
  {
    match Gate(db, p, BlogList)
    case Some(denied) => Step(db, denied)
    case None => Step(db.(blogs := db.blogs - {id}), Ok(BlogList))
  }
}
