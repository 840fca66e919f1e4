/** The demo handler of gallery_server.cpp: the image store, the URI
    split, the check of a posted image link, the gallery page and the
    routing of handle_request.

    The std::map of images is a list of (name, bytes) pairs kept strictly
    sorted by name, so that the fold of render_gallery visits the images in
    the map's order. What curl and the image file would produce is a
    parameter (download), and the response is the record of the fields the
    handler sets; send_message is not part of this model. */
module GalleryServer {
  import opened Common
  import HttpMessage
  import HtmlTemplate

  // ---------------------------------------------------------------------
  // The image store: std::map<string, string> (gallery_server.cpp:19-32)
  // ---------------------------------------------------------------------

  /** std::string's operator<: lexicographic, a proper prefix first. */
  predicate Before(a: String, b: String)
    decreases |a|
  {
    |b| > 0 && (|a| == 0 || a[0] < b[0] || (a[0] == b[0] && Before(a[1..], b[1..])))
  }

  lemma {:induction false} BeforeIrreflexive(a: String)
    ensures !Before(a, a)
    decreases |a|
  {
    if |a| > 0 {
      BeforeIrreflexive(a[1..]);
    }
  }

  lemma {:induction false} BeforeTransitive(a: String, b: String, c: String)
    requires Before(a, b) && Before(b, c)
    ensures Before(a, c)
    decreases |a|
  {
    if |a| > 0 && a[0] == b[0] && b[0] == c[0] {
      BeforeTransitive(a[1..], b[1..], c[1..]);
    }
  }

  lemma {:induction false} BeforeTotal(a: String, b: String)
    requires a != b
    ensures Before(a, b) || Before(b, a)
    decreases |a|
  {
    if |a| > 0 && |b| > 0 && a[0] == b[0] {
      assert a == [a[0]] + a[1..] && b == [b[0]] + b[1..];
      BeforeTotal(a[1..], b[1..]);
    }
  }

  /** The map as (name, bytes) pairs in the map's iteration order. */
  type Images = seq<(String, String)>

  ghost predicate Sorted(imgs: Images)
  {
    forall i, j :: 0 <= i < j < |imgs| ==> Before(imgs[i].0, imgs[j].0)
  }

  /** imgs.find(name): the bytes stored under name. */
  function Lookup(imgs: Images, name: String): Option<String>
    decreases |imgs|
  {
    if |imgs| == 0 then None
    else if imgs[0].0 == name then Some(imgs[0].1)
    else Lookup(imgs[1..], name)
  }

  /** imgs[name] = bytes: replace the entry, or insert it in its place. */
  function Put(imgs: Images, name: String, bytes: String): Images
    decreases |imgs|
  {
    if |imgs| == 0 then [(name, bytes)]
    else if imgs[0].0 == name then [(name, bytes)] + imgs[1..]
    else if Before(name, imgs[0].0) then [(name, bytes)] + imgs
    else [imgs[0]] + Put(imgs[1..], name, bytes)
  }

  /** After storing, the name maps to the new bytes and every other name
      to what it mapped to before. */
  lemma {:induction false} PutLookup(imgs: Images, name: String, bytes: String, other: String)
    ensures Lookup(Put(imgs, name, bytes), other) == if other == name then Some(bytes) else Lookup(imgs, other)
    decreases |imgs|
  {
    if |imgs| > 0 && imgs[0].0 != name && !Before(name, imgs[0].0) {
      PutLookup(imgs[1..], name, bytes, other);
      assert Put(imgs, name, bytes)[1..] == Put(imgs[1..], name, bytes);
    } else if |imgs| > 0 && imgs[0].0 != name {
      assert ([(name, bytes)] + imgs)[1..] == imgs;
    } else if |imgs| > 0 {
      assert ([(name, bytes)] + imgs[1..])[1..] == imgs[1..];
    }
  }

  /** Every name of the store comes after x, and so does name: then every
      name after storing comes after x. */
  lemma {:induction false} PutAfter(imgs: Images, name: String, bytes: String, x: String)
    requires forall i :: 0 <= i < |imgs| ==> Before(x, imgs[i].0)
    requires Before(x, name)
    ensures forall i :: 0 <= i < |Put(imgs, name, bytes)| ==> Before(x, Put(imgs, name, bytes)[i].0)
    decreases |imgs|
  {
    if |imgs| > 0 && imgs[0].0 != name && !Before(name, imgs[0].0) {
      PutAfter(imgs[1..], name, bytes, x);
    }
  }

  /** Storing keeps the store sorted, so it stays a faithful std::map. */
  lemma {:induction false} PutSorted(imgs: Images, name: String, bytes: String)
    requires Sorted(imgs)
    ensures Sorted(Put(imgs, name, bytes))
    decreases |imgs|
  {
    if |imgs| == 0 {
    } else if imgs[0].0 == name {
    } else if Before(name, imgs[0].0) {
      forall j | 0 < j < |imgs|
        ensures Before(name, imgs[j].0)
      {
        BeforeTransitive(name, imgs[0].0, imgs[j].0);
      }
    } else {
      BeforeTotal(name, imgs[0].0);
      PutSorted(imgs[1..], name, bytes);
      PutAfter(imgs[1..], name, bytes, imgs[0].0);
      var r := Put(imgs, name, bytes);
      assert r == [imgs[0]] + Put(imgs[1..], name, bytes);
    }
  }

  /** load_image (lines 21-32) with the bytes of the file as a parameter:
      a name already stored is left alone. */
  function Loaded(imgs: Images, name: String, bytes: String): Images
  {
    if Lookup(imgs, name).Some? then imgs else Put(imgs, name, bytes)
  }

  /** Loading never replaces an image: a stored name keeps its bytes, and
      a new name gets the loaded ones. */
  lemma LoadImageKeeps(imgs: Images, name: String, bytes: String, other: String)
    ensures Lookup(Loaded(imgs, name, bytes), other) ==
              if other == name && Lookup(imgs, name).None? then Some(bytes) else Lookup(imgs, other)
  {
    if Lookup(imgs, name).None? {
      PutLookup(imgs, name, bytes, other);
    }
  }

  // ---------------------------------------------------------------------
  // parse_uri (gallery_server.cpp:51-68)
  // ---------------------------------------------------------------------

  predicate NoSlash(s: String)
  {
    forall i :: 0 <= i < |s| ==> s[i] != '/'
  }

  /** The text up to the first '/'. */
  function Segment(s: String): (seg: String)
    ensures |seg| <= |s| && seg == s[..|seg|]
    decreases |s|
  {
    if |s| == 0 || s[0] == '/' then [] else [s[0]] + Segment(s[1..])
  }

  /** A prefix without '/' that ends at a '/' or at the end is the
      segment. */
  lemma {:induction false} SegmentIs(s: String, k: nat)
    requires k <= |s| && NoSlash(s[..k]) && (k == |s| || s[k] == '/')
    ensures Segment(s) == s[..k]
    decreases k
  {
    if k > 0 {
      assert s[0] == s[..k][0];
      SegmentIs(s[1..], k - 1);
      assert s[..k] == [s[0]] + s[1..][..k - 1];
    }
  }

  /** The two strings parse_uri returns: the first character is skipped
      unconditionally, the category runs to the next '/', the resource from
      after it to the following '/'. */
  function UriParts(uri: String): (String, String)
  {
    if |uri| == 0 then ("", "")
    else
      var rest := uri[1..];
      var category := Segment(rest);
      var after := if |category| < |rest| then rest[|category| + 1..] else [];
      (category, Segment(after))
  }

  /** One of the two loops of parse_uri: collect the characters from
      index from up to the next '/' or the end; stop is where it halted. */
  method SegmentFrom(uri: String, from: nat) returns (seg: String, stop: nat)
    ensures seg == (if from <= |uri| then Segment(uri[from..]) else "")
    ensures stop == from + |seg|
  {
    seg := "";
    var i := from;
    while i < |uri|
      invariant from <= i && (from <= |uri| ==> i <= |uri|) && i == from + |seg|
      invariant seg == (if from <= |uri| then uri[from..i] else "") && NoSlash(seg)
    {
      if uri[i] == '/' {
        break;
      }
      seg := seg + [uri[i]];
      i := i + 1;
    }
    if from <= |uri| {
      assert uri[from..][..i - from] == seg;
      SegmentIs(uri[from..], i - from);
    }
    stop := i;
  }

  /** parse_uri: the first loop starts after the leading character, the
      second one past the '/' (or the end) where the first one halted. */
  method ParseUri(uri: String) returns (category: String, resource: String)
    ensures (category, resource) == UriParts(uri)
  {
    var i;
    category, i := SegmentFrom(uri, 1);
    resource, i := SegmentFrom(uri, i + 1);
    if |uri| > 0 && |category| < |uri| - 1 {
      assert uri[1..][|category| + 1..] == uri[|category| + 2..];
    }
  }

  /** Neither string contains '/'. */
  lemma {:induction false} SegmentNoSlash(s: String)
    ensures NoSlash(Segment(s))
    decreases |s|
  {
    if |s| > 0 && s[0] != '/' {
      SegmentNoSlash(s[1..]);
    }
  }

  lemma UriPartsNoSlash(uri: String)
    ensures NoSlash(UriParts(uri).0) && NoSlash(UriParts(uri).1)
  {
    if |uri| > 0 {
      var rest := uri[1..];
      SegmentNoSlash(rest);
      var category := Segment(rest);
      SegmentNoSlash(if |category| < |rest| then rest[|category| + 1..] else []);
    }
  }

  /** parse_uri takes apart the paths it is meant for: "/" category "/"
      resource, followed by nothing or by a further '/'. */
  lemma UriPartsOf(category: String, resource: String, tail: String)
    requires NoSlash(category) && NoSlash(resource) && (|tail| == 0 || tail[0] == '/')
    ensures UriParts("/" + category + "/" + resource + tail) == (category, resource)
  {
    var uri := "/" + category + "/" + resource + tail;
    var rest := uri[1..];
    assert rest == category + "/" + resource + tail;
    assert rest[..|category|] == category;
    SegmentIs(rest, |category|);
    var after := rest[|category| + 1..];
    assert after == resource + tail;
    assert after[..|resource|] == resource;
    SegmentIs(after, |resource|);
  }

  // ---------------------------------------------------------------------
  // The posted link (gallery_server.cpp:99-126)
  // ---------------------------------------------------------------------

  /** content.substr(0, content.size() - 2): the size is unsigned, so a
      body shorter than 2 is kept whole. */
  function Trimmed(content: String): String
  {
    if |content| >= 2 then content[..|content| - 2] else content
  }

  /** The text after the last '/' (all of it when there is none). */
  function AfterLastSlash(s: String): (name: String)
    ensures |name| <= |s| && name == s[|s| - |name|..]
    decreases |s|
  {
    if |s| == 0 || s[|s| - 1] == '/' then [] else AfterLastSlash(s[..|s| - 1]) + [s[|s| - 1]]
  }

  lemma {:induction false} AfterLastSlashIs(s: String, k: nat)
    requires k <= |s| && NoSlash(s[k..]) && (k == 0 || s[k - 1] == '/')
    ensures AfterLastSlash(s) == s[k..]
    decreases |s| - k
  {
    if k < |s| {
      var init := s[..|s| - 1];
      assert init[k..] == s[k..|s| - 1];
      assert k == 0 || init[k - 1] == '/';
      AfterLastSlashIs(init, k);
      assert s[k..] == s[k..|s| - 1] + [s[|s| - 1]];
    }
  }

  function Reverse(s: String): (r: String)
    ensures |r| == |s|
    decreases |s|
  {
    if |s| == 0 then [] else Reverse(s[1..]) + [s[0]]
  }

  lemma {:induction false} ReverseAppend(a: String, b: String)
    ensures Reverse(a + b) == Reverse(b) + Reverse(a)
    decreases |a|
  {
    if |a| == 0 {
      assert a + b == b;
    } else {
      assert (a + b)[1..] == a[1..] + b;
      ReverseAppend(a[1..], b);
    }
  }

  lemma {:induction false} ReverseReverse(s: String)
    ensures Reverse(Reverse(s)) == s
    decreases |s|
  {
    if |s| > 0 {
      ReverseReverse(s[1..]);
      ReverseAppend(Reverse(s[1..]), [s[0]]);
      assert Reverse([s[0]]) == [s[0]];
      assert s == [s[0]] + s[1..];
    }
  }

  /** The loop of lines 113-118 and the reverse of line 119. */
  method FileName(link: String) returns (fileName: String)
    ensures fileName == AfterLastSlash(link)
  {
    var reversed := "";
    var i := |link| - 1;
    while i >= 0
      invariant -1 <= i < |link|
      invariant reversed == Reverse(link[i + 1..]) && NoSlash(link[i + 1..])
    {
      if link[i] == '/' {
        break;
      }
      assert link[i..] == [link[i]] + link[i + 1..];
      reversed := reversed + [link[i]];
      i := i - 1;
    }
    AfterLastSlashIs(link, i + 1);
    ReverseReverse(link[i + 1..]);
    fileName := Reverse(reversed);
  }

  datatype LinkCheck = Accepted(link: String, fileName: String) | Rejected

  predicate ImageExtension(ext: String)
  {
    ext == ".jpg" || ext == ".png"
  }

  /** The validation of a posted body (lines 99-126): the body less its
      last two characters must be longer than 9; its first 5 characters
      are dropped without being looked at; the rest must end in ".jpg" or
      ".png", contain a '/', and name (after its last '/') a file that is
      not stored yet. */
  function CheckLink(content: String, imgs: Images): LinkCheck
  {
    var trimmed := Trimmed(content);
    if |trimmed| <= 9 then Rejected
    else
      var link := trimmed[5..];
      if !ImageExtension(link[|link| - 4..]) then Rejected
      else
        var name := AfterLastSlash(link);
        if name == link then Rejected
        else if Lookup(imgs, name).Some? then Rejected
        else Accepted(link, name)
  }

  /** The checks of lines 99-126 as the handler runs them. */
  method ValidateLink(content: String, imgs: Images) returns (r: LinkCheck)
    ensures r == CheckLink(content, imgs)
  {
    var valid := true;
    var link: String := Trimmed(content);
    var fileName: String := "";
    if |link| <= 9 {
      valid := false;
    }
    if valid {
      link := link[5..];
      var extension := link[|link| - 4..];
      if extension != ".jpg" && extension != ".png" {
        valid := false;
      }
    }
    if valid {
      fileName := FileName(link);
      if fileName == link {
        valid := false;
      } else if Lookup(imgs, fileName).Some? {
        valid := false;
      }
    }
    r := if valid then Accepted(link, fileName) else Rejected;
  }

  /** The five characters dropped before the link are never looked at:
      two bodies that differ only there get the same verdict. */
  lemma PrefixUnchecked(a: String, b: String, imgs: Images)
    requires |a| == |b| && |a| >= 5 && a[5..] == b[5..]
    ensures CheckLink(a, imgs) == CheckLink(b, imgs)
  {
    if |a| > 11 {
      assert Trimmed(a)[5..] == a[5..|a| - 2] == b[5..|b| - 2] == Trimmed(b)[5..] by {
        assert a[5..|a| - 2] == a[5..][..|a| - 7];
        assert b[5..|b| - 2] == b[5..][..|b| - 7];
      }
    }
  }

  /** A file name is the whole link exactly when the link has no '/'. */
  lemma {:induction false} WholeLinkIffNoSlash(s: String)
    ensures AfterLastSlash(s) == s <==> NoSlash(s)
    decreases |s|
  {
    if |s| > 0 {
      WholeLinkIffNoSlash(s[..|s| - 1]);
      if s[|s| - 1] != '/' {
        assert s == s[..|s| - 1] + [s[|s| - 1]];
        if NoSlash(s[..|s| - 1]) {
          assert NoSlash(s);
        }
        if AfterLastSlash(s) == s {
          assert AfterLastSlash(s[..|s| - 1]) == s[..|s| - 1];
        }
      } else {
        assert !NoSlash(s);
      }
    }
  }

  /** What an accepted link is: the body is five characters, the link and
      two more; the link is some text, a '/', and a name without '/' that
      ends in an image extension and is not stored yet. */
  lemma AcceptedLink(content: String, imgs: Images)
    requires CheckLink(content, imgs).Accepted?
    ensures var link, name := CheckLink(content, imgs).link, CheckLink(content, imgs).fileName;
            |content| >= 12 && link == content[5..|content| - 2] &&
            |link| > |name| && link[|link| - |name| - 1] == '/' && link[|link| - |name|..] == name &&
            NoSlash(name) && |name| >= 4 && ImageExtension(name[|name| - 4..]) &&
            Lookup(imgs, name).None?
  {
    var trimmed := Trimmed(content);
    assert |content| >= 2 && trimmed == content[..|content| - 2];
    assert trimmed[5..] == content[5..|content| - 2];
    LinkName(trimmed[5..]);
  }

  /** A link that ends in an image extension and holds a '/' names the
      file after its last '/'. */
  lemma LinkName(link: String)
    requires |link| >= 4 && ImageExtension(link[|link| - 4..]) && AfterLastSlash(link) != link
    ensures var name := AfterLastSlash(link);
            |link| > |name| && link[|link| - |name| - 1] == '/' && link[|link| - |name|..] == name &&
            NoSlash(name) && |name| >= 4 && ImageExtension(name[|name| - 4..])
  {
    var name := AfterLastSlash(link);
    WholeLinkIffNoSlash(link);
    LastSlashBefore(link);
    var ext := link[|link| - 4..];
    assert NoSlash(ext);
    assert forall j :: |link| - 4 <= j < |link| ==> link[j] == ext[j - (|link| - 4)];
    assert |name| >= 4;
    assert ext == name[|name| - 4..];
  }

  /** The name after the last '/' has no '/', and when it is not the whole
      text a '/' stands right before it. */
  lemma {:induction false} LastSlashBefore(s: String)
    ensures NoSlash(AfterLastSlash(s))
    ensures |AfterLastSlash(s)| < |s| ==> s[|s| - |AfterLastSlash(s)| - 1] == '/'
    decreases |s|
  {
    if |s| > 0 && s[|s| - 1] != '/' {
      var init := s[..|s| - 1];
      LastSlashBefore(init);
      var n := AfterLastSlash(init);
      assert AfterLastSlash(s) == n + [s[|s| - 1]];
      if |n| < |init| {
        assert s[|s| - |n| - 2] == init[|init| - |n| - 1];
      }
    }
  }

  /** A body written as "link=" URL CRLF, with a URL that ends in "/" and
      a new image name, is accepted with that URL and that name. */
  lemma PostedLink(head: String, name: String, imgs: Images)
    requires NoSlash(name) && |name| >= 4 && ImageExtension(name[|name| - 4..])
    requires Lookup(imgs, name).None?
    ensures var url := head + "/" + name; CheckLink("link=" + url + "\r\n", imgs) == Accepted(url, name)
  {
    var url := head + "/" + name;
    var content := "link=" + url + "\r\n";
    assert Trimmed(content)[5..] == url by {
      assert Trimmed(content) == "link=" + url;
    }
    assert ImageExtension(url[|url| - 4..]) by {
      assert url[|url| - 4..] == name[|name| - 4..];
    }
    assert AfterLastSlash(url) == name by {
      assert url[|url| - |name|..] == name;
      AfterLastSlashIs(url, |url| - |name|);
    }
    AcceptedWhen(content, imgs, url, name);
  }

  /** The conditions of CheckLink met one by one. */
  lemma AcceptedWhen(content: String, imgs: Images, link: String, name: String)
    requires |Trimmed(content)| > 9 && Trimmed(content)[5..] == link
    requires ImageExtension(link[|link| - 4..]) && AfterLastSlash(link) == name && |name| < |link|
    requires Lookup(imgs, name).None?
    ensures CheckLink(content, imgs) == Accepted(link, name)
  {
  }

  // ---------------------------------------------------------------------
  // render_gallery (gallery_server.cpp:43-49)
  // ---------------------------------------------------------------------

  /** The fold over the images in the map's order: each step renders the
      embed template on what was built so far and the image's path. */
  function GalleryFold(embed: seq<String>, imgs: Images): String
    requires |embed| <= 3
    decreases |imgs|
  {
    if |imgs| == 0 then ""
    else HtmlTemplate.Rendered(embed, [GalleryFold(embed, imgs[..|imgs| - 1]), "image/" + imgs[|imgs| - 1].0])
  }

  function GalleryPage(page: seq<String>, embed: seq<String>, imgs: Images): String
    requires |page| <= 2 && |embed| <= 3
  {
    HtmlTemplate.Rendered(page, [GalleryFold(embed, imgs)])
  }

  /** An embed template of the form  a % b % c  wraps what was built so
      far and the path of the next image. */
  lemma EmbedStep(embed: seq<String>, imgs: Images)
    requires |embed| == 3 && |imgs| > 0
    ensures GalleryFold(embed, imgs) ==
              embed[0] + GalleryFold(embed, imgs[..|imgs| - 1]) + embed[1] + ("image/" + imgs[|imgs| - 1].0) + embed[2]
  {
    var ps := [GalleryFold(embed, imgs[..|imgs| - 1]), "image/" + imgs[|imgs| - 1].0];
    assert HtmlTemplate.Filled(embed, ps, 0) == "";
    assert HtmlTemplate.Filled(embed, ps, 1) == embed[0] + ps[0];
  }

  /** t occurs in s at index i. */
  predicate OccursAt(s: String, t: String, i: int)
  {
    0 <= i <= |s| - |t| && s[i..i + |t|] == t
  }

  ghost predicate Contains(s: String, t: String)
  {
    exists i :: OccursAt(s, t, i)
  }

  lemma ContainsAppend(x: String, y: String, t: String)
    requires Contains(x, t)
    ensures Contains(x + y, t)
  {
    var i :| OccursAt(x, t, i);
    assert (x + y)[i..i + |t|] == x[i..i + |t|];
    assert OccursAt(x + y, t, i);
  }

  lemma ContainsPrepend(x: String, y: String, t: String)
    requires Contains(y, t)
    ensures Contains(x + y, t)
  {
    var i :| OccursAt(y, t, i);
    assert (x + y)[|x| + i..|x| + i + |t|] == y[i..i + |t|];
    assert OccursAt(x + y, t, |x| + i);
  }

  lemma ContainsMiddle(a: String, t: String, b: String)
    ensures Contains(a + t + b, t)
  {
    assert (a + t + b)[|a|..|a| + |t|] == t;
    assert OccursAt(a + t + b, t, |a|);
  }

  /** With an embed template holding both placeholders, the page built by
      the fold links every stored image. */
  lemma {:induction false} EveryImageLinked(embed: seq<String>, imgs: Images, i: nat)
    requires |embed| == 3 && i < |imgs|
    ensures Contains(GalleryFold(embed, imgs), "image/" + imgs[i].0)
    decreases |imgs|
  {
    EmbedStep(embed, imgs);
    var init := imgs[..|imgs| - 1];
    var path := "image/" + imgs[|imgs| - 1].0;
    var prev := GalleryFold(embed, init);
    var t := "image/" + imgs[i].0;
    if i == |imgs| - 1 {
      ContainsMiddle(embed[0] + prev + embed[1], path, embed[2]);
    } else {
      assert Contains(prev, t) by {
        EveryImageLinked(embed, init, i);
        assert init[i] == imgs[i];
      }
      ContainsPrepend(embed[0], prev, t);
      ContainsAppend(embed[0] + prev, embed[1], t);
      ContainsAppend(embed[0] + prev + embed[1], path, t);
      ContainsAppend(embed[0] + prev + embed[1] + path, embed[2], t);
    }
  }

  // ---------------------------------------------------------------------
  // handle_request (gallery_server.cpp:70-148)
  // ---------------------------------------------------------------------

  /** The fields of the response the handler sets; None where it leaves
      the status or the reason at the response's default. */
  datatype Response = Response(status: Option<String>, reason: Option<String>, headers: map<String, String>, content: String)

  const Untouched: Response := Response(None, None, map[], "")

  function Refused(status: String, reason: String): Response
  {
    Untouched.(status := Some(status), reason := Some(reason))
  }

  const NotFound: Response := Refused("404", "Not found")

  function ImageResponse(bytes: String): Response
  {
    Response(Some("200"), Some("OK"),
             map["Cache-Control" := "public, max-age=604800, immutable", "Content-Type" := "image"],
             bytes)
  }

  /** What handle_request answers to a request, and the store after it.
      download stands for the bytes curl saves for an accepted link. */
  function Handle(method_: String, uri: String, content: String, imgs: Images, download: String,
                  page: seq<String>, embed: seq<String>): (Response, Images)
    requires |page| <= 2 && |embed| <= 3
  {
    if method_ == "GET" then
      var (category, resource) := UriParts(uri);
      if category == "image" then
        match Lookup(imgs, resource)
        case None => (NotFound, imgs)
        case Some(bytes) => (ImageResponse(bytes), imgs)
      else if category == "home" then (Untouched.(content := GalleryPage(page, embed, imgs)), imgs)
      else (NotFound, imgs)
    else if method_ == "POST" then
      if UriParts(uri).0 == "home" then
        match CheckLink(content, imgs)
        case Rejected => (Refused("400", "Bad request"), imgs)
        case Accepted(_, name) =>
          var stored := Loaded(imgs, name, download);
          (Untouched.(content := GalleryPage(page, embed, stored)), stored)
      else (NotFound, imgs)
    else (Refused("501", "Not implemented"), imgs)
  }

  /** The routing table: which status each kind of request gets. */
  lemma Routing(method_: String, uri: String, content: String, imgs: Images, download: String,
                page: seq<String>, embed: seq<String>)
    requires |page| <= 2 && |embed| <= 3
    ensures var (r, _) := Handle(method_, uri, content, imgs, download, page, embed);
            var category := UriParts(uri).0;
            var resource := UriParts(uri).1;
            (method_ == "GET" && category == "image" ==>
               r.status == (if Lookup(imgs, resource).Some? then Some("200") else Some("404"))) &&
            (method_ == "GET" && category == "home" ==> r.status.None? && r.content == GalleryPage(page, embed, imgs)) &&
            (method_ == "GET" && category != "image" && category != "home" ==> r.status == Some("404")) &&
            (method_ == "POST" && category == "home" ==>
               r.status == (if CheckLink(content, imgs).Rejected? then Some("400") else None)) &&
            (method_ == "POST" && category != "home" ==> r.status == Some("404")) &&
            (method_ != "GET" && method_ != "POST" ==> r.status == Some("501"))
  {
  }

  /** The store changes only on an accepted upload, and then only by the
      new image; every image served before is still served. */
  lemma UploadOnlyAdds(method_: String, uri: String, content: String, imgs: Images, download: String,
                       page: seq<String>, embed: seq<String>, other: String)
    requires |page| <= 2 && |embed| <= 3
    ensures var after := Handle(method_, uri, content, imgs, download, page, embed).1;
            Lookup(imgs, other).Some? ==> Lookup(after, other) == Lookup(imgs, other)
    ensures var after := Handle(method_, uri, content, imgs, download, page, embed).1;
            after != imgs ==> method_ == "POST" && CheckLink(content, imgs).Accepted? &&
                              after == Put(imgs, CheckLink(content, imgs).fileName, download)
  {
    if method_ == "POST" && UriParts(uri).0 == "home" && CheckLink(content, imgs).Accepted? {
      LoadImageKeeps(imgs, CheckLink(content, imgs).fileName, download, other);
    }
  }

  /** After an accepted upload of "link=" URL CRLF to /home, a GET of
      /image/ followed by the file name serves the downloaded bytes. */
  lemma UploadThenServe(head: String, name: String, imgs: Images, download: String,
                        page: seq<String>, embed: seq<String>)
    requires |page| <= 2 && |embed| <= 3
    requires NoSlash(name) && |name| >= 4 && ImageExtension(name[|name| - 4..])
    requires Lookup(imgs, name).None?
    ensures var after := Handle("POST", "/home", "link=" + head + "/" + name + "\r\n", imgs, download, page, embed).1;
            Handle("GET", "/image/" + name, "", after, download, page, embed).0 == ImageResponse(download)
  {
    var url := head + "/" + name;
    var content := "link=" + url + "\r\n";
    var after := Put(imgs, name, download);
    assert content == "link=" + head + "/" + name + "\r\n";
    PostedLink(head, name, imgs);
    HomeUri();
    UploadStores("/home", content, imgs, download, page, embed);
    ImageUri(name);
    PutLookup(imgs, name, download, name);
    ServeImage("/image/" + name, "", after, download, page, embed);
  }

  /** An accepted POST to /home stores the download under the file name
      of the link, as load_image does. */
  lemma UploadStores(uri: String, content: String, imgs: Images, download: String,
                     page: seq<String>, embed: seq<String>)
    requires |page| <= 2 && |embed| <= 3
    requires UriParts(uri).0 == "home" && CheckLink(content, imgs).Accepted?
    ensures Handle("POST", uri, content, imgs, download, page, embed).1 ==
              Loaded(imgs, CheckLink(content, imgs).fileName, download)
  {
  }

  /** A GET of /image/<name> for a stored name answers 200 with the
      stored bytes and the caching headers. */
  lemma ServeImage(uri: String, content: String, imgs: Images, download: String,
                   page: seq<String>, embed: seq<String>)
    requires |page| <= 2 && |embed| <= 3
    requires UriParts(uri).0 == "image" && Lookup(imgs, UriParts(uri).1).Some?
    ensures Handle("GET", uri, content, imgs, download, page, embed).0 ==
              ImageResponse(Lookup(imgs, UriParts(uri).1).value)
  {
  }

  lemma HomeUri()
    ensures UriParts("/home") == ("home", "")
  {
    assert "/home"[1..] == "home";
    assert "home"[..4] == "home" && NoSlash("home");
    SegmentIs("home", 4);
    assert Segment("") == "";
  }

  lemma ImageUri(name: String)
    requires NoSlash(name)
    ensures UriParts("/image/" + name) == ("image", name)
  {
    assert NoSlash("image");
    UriPartsOf("image", name, "");
    assert "/" + "image" + "/" + name + "" == "/image/" + name;
  }

  // ---------------------------------------------------------------------
  // The handler object (gallery_server.cpp:16-149)
  // ---------------------------------------------------------------------

  class Gallery {
    var imgs: Images
    const galleryTemplate: HtmlTemplate.HtmlTemplate
    const imageEmbed: HtmlTemplate.HtmlTemplate

    /** The store is a std::map, and the two templates take the one and
        two parameters render_gallery passes them. */
    ghost predicate Valid()
      reads this, galleryTemplate, imageEmbed
    {
      Sorted(imgs) && |galleryTemplate.components| <= 2 && |imageEmbed.components| <= 3
    }

    constructor (galleryTemplate: HtmlTemplate.HtmlTemplate, imageEmbed: HtmlTemplate.HtmlTemplate)
      requires |galleryTemplate.components| <= 2 && |imageEmbed.components| <= 3
      ensures Valid() && imgs == []
      ensures this.galleryTemplate == galleryTemplate && this.imageEmbed == imageEmbed
    {
      imgs := [];
      this.galleryTemplate := galleryTemplate;
      this.imageEmbed := imageEmbed;
    }

    /** load_image (lines 21-32); bytes stands for the file's contents. */
    method LoadImage(name: String, bytes: String)
      requires Valid()
      modifies this
      ensures Valid()
      ensures imgs == Loaded(old(imgs), name, bytes)
    {
      if Lookup(imgs, name).Some? {
        return;
      }
      PutSorted(imgs, name, bytes);
      imgs := Put(imgs, name, bytes);
    }

    /** render_gallery (lines 43-49). */
    method RenderGallery() returns (page: String)
      requires Valid()
      ensures page == GalleryPage(galleryTemplate.components, imageEmbed.components, imgs)
    {
      var res := "";
      var i := 0;
      while i < |imgs|
        invariant 0 <= i <= |imgs|
        invariant res == GalleryFold(imageEmbed.components, imgs[..i])
      {
        assert imgs[..i + 1][..i] == imgs[..i];
        res := imageEmbed.Render([res, "image/" + imgs[i].0]);
        i := i + 1;
      }
      assert imgs[..i] == imgs;
      page := galleryTemplate.Render([res]);
    }

    /** handle_request (lines 70-148) on the parsed request; it always
        returns 0, asking the dispatcher to keep the connection. */
    method HandleRequest(request: HttpMessage.HttpRequest, download: String) returns (res: Response, keep: int)
      requires Valid()
      modifies this
      ensures Valid()
      ensures (res, imgs) == Handle(request.requestType, request.uri, request.content, old(imgs), download,
                                    galleryTemplate.components, imageEmbed.components)
      ensures keep == 0
    {
      res := Untouched;
      if request.requestType == "GET" {
        var category, resource := ParseUri(request.uri);
        if category == "image" {
          var found := Lookup(imgs, resource);
          if found.None? {
            res := res.(status := Some("404"), reason := Some("Not found"));
          } else {
            res := res.(status := Some("200"), reason := Some("OK"));
            res := res.(headers := res.headers["Cache-Control" := "public, max-age=604800, immutable"]);
            res := res.(headers := res.headers["Content-Type" := "image"]);
            res := res.(content := found.value);
          }
        } else if category == "home" {
          var page := RenderGallery();
          res := res.(content := page);
        } else {
          res := res.(status := Some("404"), reason := Some("Not found"));
        }
      } else if request.requestType == "POST" {
        var category, _ := ParseUri(request.uri);
        if category == "home" {
          var check := ValidateLink(request.content, imgs);
          if check.Accepted? {
            LoadImage(check.fileName, download);
            var page := RenderGallery();
            res := res.(content := page);
          } else {
            res := res.(status := Some("400"), reason := Some("Bad request"));
          }
        } else {
          res := res.(status := Some("404"), reason := Some("Not found"));
        }
      } else {
        res := res.(status := Some("501"), reason := Some("Not implemented"));
      }
      keep := 0;
    }
  }
}
