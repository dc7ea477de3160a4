/** The request handler (app.py:53-136): the guards, the assembly of the content sent to the
    model, and what the handler redirects to. Images are left abstract: `Image` stands for an
    image that was opened and resized successfully. */
module Analyze {
  import opened Text
  import opened Normalizer

  /** The instruction that opens every request to the model (app.py:19-27). */
  const GallAnalysisPrompt: string :=
    "\n"
    + "Analyze the attached image(s) of a dahlia tuber. Act as a certified plant pathology expert. \n"
    + "Your response must consist only of the analysis and the final verdict line.\n"
    + "\n"
    + "**Identify Growths:** Determine if there are any abnormal growths, tumors, or distorted tissue present, specifically looking for signs of Crown Gall (Agrobacterium tumefaciens) and Leafy Gall (Rhodococcus fascians).\n"
    + "**Describe Findings:** Describe the visual evidence found, noting if the growths are hard and tumor-like (Crown Gall) or bushy and distorted (Leafy Gall). If no gall is present, describe the healthy appearance.\n"
    + "\n"
    + "Crucially, format your final verdict on a single line using ONLY this exact structure: [VERDICT: Gall Disease Present / Gall Disease Not Present] [CONFIDENCE: X%]\n"

  /** What the results page shows when the model client could not be created. */
  const NotConfiguredMessage: string :=
    "ERROR: AI service not configured. Check GEMINI_API_KEY environment variable."

  /** The outcome of reading, opening and resizing one uploaded file. */
  datatype Decoding<Image> = Decoded(image: Image) | Undecodable

  /** One part of the `photos` field: its declared file name and what decoding it gives. */
  datatype Upload<Image> = Upload(filename: string, decoding: Decoding<Image>)

  /** An element of the content list: the instruction text or an image. */
  datatype Part<Image> = Instruction(text: string) | Picture(image: Image)

  /** What the model client gives back: the reply text, or the exception it raised. */
  datatype Reply<Failure> = Answer(text: string) | Raised(failure: Failure)

  /** Where the handler redirects: back to the upload page, or to the results page with the text
      to show, or to the results page with a message made from an exception. */
  datatype Response<Failure> = ToIndex | ToResults(analysis: string) | ToFailure(failure: Failure)

  /** The loop keeps an upload when it has a file name and its image could be processed. */
  predicate Kept<Image>(u: Upload<Image>) {
    u.filename != "" && u.decoding.Decoded?
  }

  /** The images of the kept uploads, in upload order. */
  function Survivors<Image>(uploads: seq<Upload<Image>>): seq<Image> {
    if uploads == [] then []
    else
      var last := uploads[|uploads| - 1];
      Survivors(uploads[..|uploads| - 1]) + (if Kept(last) then [last.decoding.image] else [])
  }

  function Pictures<Image>(images: seq<Image>): (r: seq<Part<Image>>)
    ensures |r| == |images|
    ensures forall k :: 0 <= k < |r| ==> r[k] == Picture(images[k])
  {
    if images == [] then [] else [Picture(images[0])] + Pictures(images[1..])
  }

  lemma {:induction false} SurvivorsAtMostUploads<Image>(uploads: seq<Upload<Image>>)
    ensures |Survivors(uploads)| <= |uploads|
    decreases |uploads|
  {
    if uploads != [] {
      SurvivorsAtMostUploads(uploads[..|uploads| - 1]);
    }
  }

  /** Filtering a concatenation filters each part in turn: the order of the uploads is kept. */
  lemma {:induction false} SurvivorsAppend<Image>(a: seq<Upload<Image>>, b: seq<Upload<Image>>)
    ensures Survivors(a + b) == Survivors(a) + Survivors(b)
    decreases |b|
  {
    if b == [] {
      assert a + b == a;
    } else {
      var b' := b[..|b| - 1];
      assert (a + b)[..|a + b| - 1] == a + b';
      SurvivorsAppend(a, b');
    }
  }

  /** One more upload adds its image at the end when it is kept, and nothing otherwise. */
  lemma SurvivorsSnoc<Image>(uploads: seq<Upload<Image>>, i: nat)
    requires i < |uploads|
    ensures Survivors(uploads[..i + 1])
      == Survivors(uploads[..i]) + if Kept(uploads[i]) then [uploads[i].decoding.image] else []
  {
    assert uploads[..i + 1][..i] == uploads[..i];
  }

  /** An image survives exactly when some upload carrying it is kept. */
  lemma {:induction false} SurvivorsMembership<Image>(uploads: seq<Upload<Image>>, img: Image)
    ensures img in Survivors(uploads)
      <==> exists k :: 0 <= k < |uploads| && Kept(uploads[k]) && uploads[k].decoding.image == img
    decreases |uploads|
  {
    if uploads != [] {
      var init := uploads[..|uploads| - 1];
      SurvivorsMembership(init, img);
      if exists k :: 0 <= k < |init| && Kept(init[k]) && init[k].decoding.image == img {
        var k :| 0 <= k < |init| && Kept(init[k]) && init[k].decoding.image == img;
        assert uploads[k] == init[k];
      }
      if exists k :: 0 <= k < |uploads| && Kept(uploads[k]) && uploads[k].decoding.image == img {
        var k :| 0 <= k < |uploads| && Kept(uploads[k]) && uploads[k].decoding.image == img;
        if k < |init| {
          assert init[k] == uploads[k];
        }
      }
    }
  }

  /** Nothing survives exactly when no upload is kept. */
  lemma {:induction false} SurvivorsEmpty<Image>(uploads: seq<Upload<Image>>)
    ensures Survivors(uploads) == [] <==> forall k :: 0 <= k < |uploads| ==> !Kept(uploads[k])
    decreases |uploads|
  {
    if uploads != [] {
      var init := uploads[..|uploads| - 1];
      SurvivorsEmpty(init);
      forall k | 0 <= k < |init| ensures init[k] == uploads[k] {
      }
    }
  }

  /** The content list that the uploads give: the prompt, then one picture per kept upload. */
  function Content<Image>(uploads: seq<Upload<Image>>): seq<Part<Image>> {
    [Instruction(GallAnalysisPrompt)] + Pictures(Survivors(uploads))
  }

  /** One more upload appends its picture to the content when it is kept, and nothing otherwise. */
  lemma ContentSnoc<Image>(uploads: seq<Upload<Image>>, i: nat)
    requires i < |uploads|
    ensures Content(uploads[..i + 1])
      == Content(uploads[..i]) + if Kept(uploads[i]) then [Picture(uploads[i].decoding.image)] else []
  {
    SurvivorsSnoc(uploads, i);
    var u := uploads[i];
    if Kept(u) {
      PicturesAppend(Survivors(uploads[..i]), [u.decoding.image]);
    }
  }

  /** The content list of app.py:69-85: the prompt, then one picture per kept upload. */
  method AssembleContent<Image>(uploads: seq<Upload<Image>>) returns (content: seq<Part<Image>>)
    ensures content == Content(uploads)
    ensures |content| <= 1 + |uploads|
    ensures |content| == 1 <==> forall k :: 0 <= k < |uploads| ==> !Kept(uploads[k])
  {
    content := [Instruction(GallAnalysisPrompt)];
    for i := 0 to |uploads|
      invariant content == Content(uploads[..i])
    {
      var file := uploads[i];
      ContentSnoc(uploads, i);
      if file.filename != "" {
        match file.decoding
        case Decoded(image) =>
          content := content + [Picture(image)];
        case Undecodable =>
      }
    }
    assert uploads[..|uploads|] == uploads;
    SurvivorsAtMostUploads(uploads);
    SurvivorsEmpty(uploads);
  }

  lemma PicturesAppend<Image>(a: seq<Image>, b: seq<Image>)
    ensures Pictures(a + b) == Pictures(a) + Pictures(b)
  {
    var l := Pictures(a + b);
    var r := Pictures(a) + Pictures(b);
    assert |l| == |r|;
    forall k | 0 <= k < |l| ensures l[k] == r[k] {
      if k < |a| {
        assert (a + b)[k] == a[k];
      } else {
        assert (a + b)[k] == b[k - |a|];
      }
    }
  }

  /** The handler: the guards of app.py:58-64 and 87-88, then one call to the model with the
      assembled content, then the text cleaned and joined, or the exception passed on. */
  method AnalyzeTuber<Image, Failure>(
    client: Option<seq<Part<Image>> -> Reply<Failure>>, photos: Option<seq<Upload<Image>>>)
    returns (response: Response<Failure>, sent: Option<seq<Part<Image>>>)
    ensures client.None? ==> response == ToResults(NotConfiguredMessage) && sent.None?
    ensures client.Some? && photos.None? ==> response == ToIndex && sent.None?
    ensures client.Some? && photos.Some? && (forall k :: 0 <= k < |photos.value| ==> !Kept(photos.value[k]))
      ==> response == ToIndex && sent.None?
    ensures client.Some? && photos.Some? && (exists k :: 0 <= k < |photos.value| && Kept(photos.value[k]))
      ==> var content := Content(photos.value);
        && sent == Some(content)
        && response == match client.value(content) {
             case Answer(text) => ToResults(Normalize(text))
             case Raised(failure) => ToFailure(failure)
           }
  {
    sent := None;
    if client.None? {
      return ToResults(NotConfiguredMessage), sent;
    }
    if photos.None? {
      return ToIndex, sent;
    }
    var content := AssembleContent(photos.value);
    if |content| == 1 {
      return ToIndex, sent;
    }
    sent := Some(content);
    var reply := client.value(content);
    match reply
    case Answer(text) =>
      response := ToResults(Normalize(text));
    case Raised(failure) =>
      response := ToFailure(failure);
  }
}
