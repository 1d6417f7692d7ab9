/**
 * Page navigation in the PDF modal (`openPdfModal`, `closePdfModal`,
 * `renderPage` and the prev / next / page-input handlers of app.js).
 *
 * `renderPage` is asynchronous: it checks `pdfDoc` and asks the document for
 * the page at once, but only after two awaits does it set `currentPage` and
 * the page box.  It is therefore split in two: `RenderPage` records the
 * render as a pending job, and `CompleteRender` is the continuation of one
 * pending job, run whenever the browser resumes it, in any order.  PDF.js
 * rejects a page number outside `1..numPages` of the document asked, which
 * the continuation's `ok` flag and its range check stand for.
 *
 * `PageViewer` is the code as written; `GuardedPageViewer` adds a generation
 * number so that a render started for a document that has since been closed
 * cannot change the page of the next one.
 */
module Viewer {
  import opened Text

  /** A loaded PDF has at least one page. */
  type PageCount = n: nat | 1 <= n witness 1

  /** A loaded PDF.js document, of which only the page count matters here. */
  datatype Document = Document(numPages: PageCount)

  /** A `renderPage(page)` call on `doc` that has not yet resumed. */
  datatype RenderJob = RenderJob(doc: Document, page: int)

  /** The pending jobs without the one at `k`. */
  function Without<T>(s: seq<T>, k: nat): (r: seq<T>)
    requires k < |s|
    ensures |r| == |s| - 1
    ensures forall j :: 0 <= j < k ==> r[j] == s[j]
    ensures forall j :: k <= j < |r| ==> r[j] == s[j + 1]
  {
    s[..k] + s[k + 1..]
  }

  /** The viewer state of app.js: `pdfDoc`, `currentPage` and the page box. */
  class PageViewer {
    var pdfDoc: Option<Document>
    var currentPage: int
    /** The number in the page box, `None` when it does not parse. */
    var pageInput: Option<int>
    var pending: seq<RenderJob>

    /** The page is in range of the open document, and 1 when none is open. */
    predicate InRange()
      reads this
    {
      match pdfDoc
      case Some(doc) => 1 <= currentPage <= doc.numPages
      case None => currentPage == 1
    }

    /** The state when the page is loaded. */
    constructor ()
      ensures pdfDoc == None && currentPage == 1 && pageInput == Some(1) && pending == []
      ensures InRange()
    {
      pdfDoc := None;
      currentPage := 1;
      pageInput := Some(1);
      pending := [];
    }

    /** `renderPage(pageNum)` up to its first await: nothing happens when no document is open. */
    method RenderPage(pageNum: int)
      modifies this`pending
      ensures pending == old(pending) + (if pdfDoc.Some? then [RenderJob(pdfDoc.value, pageNum)] else [])
    {
      if pdfDoc.Some? {
        pending := pending + [RenderJob(pdfDoc.value, pageNum)];
      }
    }

    /**
     * The rest of `renderPage` for the pending job `k`: when the document
     * delivered and drew the page (`ok`, and the page exists in the
     * document the job was started on) the page box and `currentPage`
     * become that page; otherwise the error is only logged.  This keeps the
     * page in range when the job belongs to the open document.
     */
    method CompleteRender(k: nat, ok: bool)
      requires k < |pending|
      modifies this`currentPage, this`pageInput, this`pending
      ensures pending == Without(old(pending), k)
      ensures var job := old(pending[k]);
        if ok && 1 <= job.page <= job.doc.numPages
        then currentPage == job.page && pageInput == Some(job.page)
        else currentPage == old(currentPage) && pageInput == old(pageInput)
      ensures old(InRange()) && pdfDoc == Some(old(pending[k]).doc) ==> InRange()
    {
      var job := pending[k];
      pending := Without(pending, k);
      if ok && 1 <= job.page <= job.doc.numPages {
        pageInput := Some(job.page);
        currentPage := job.page;
      }
    }

    /** The previous-page button: acts only on an open document past its first page. */
    method Prev()
      modifies this`currentPage, this`pending
      ensures if old(pdfDoc.Some? && currentPage > 1)
              then currentPage == old(currentPage) - 1
                   && pending == old(pending) + [RenderJob(pdfDoc.value, currentPage)]
              else currentPage == old(currentPage) && pending == old(pending)
      ensures old(InRange()) ==> InRange()
    {
      if pdfDoc.Some? && currentPage > 1 {
        currentPage := currentPage - 1;
        RenderPage(currentPage);
      }
    }

    /** The next-page button: acts only on an open document before its last page. */
    method Next()
      modifies this`currentPage, this`pending
      ensures if old(pdfDoc.Some? && currentPage < pdfDoc.value.numPages)
              then currentPage == old(currentPage) + 1
                   && pending == old(pending) + [RenderJob(pdfDoc.value, currentPage)]
              else currentPage == old(currentPage) && pending == old(pending)
      ensures old(InRange()) ==> InRange()
    {
      if pdfDoc.Some? && currentPage < pdfDoc.value.numPages {
        currentPage := currentPage + 1;
        RenderPage(currentPage);
      }
    }

    /**
     * A change of the page box to `typed` (already through `parseInt`):
     * a page of the open document is rendered, anything else puts the
     * current page back into the box.  `currentPage` itself only changes
     * when the render completes.
     */
    method PageInputChanged(typed: Option<int>)
      modifies this`pageInput, this`pending
      ensures var accepted := pdfDoc.Some? && typed.Some? && 1 <= typed.value <= pdfDoc.value.numPages;
        if accepted
        then pageInput == typed && pending == old(pending) + [RenderJob(pdfDoc.value, typed.value)]
        else pageInput == Some(currentPage) && pending == old(pending)
    {
      pageInput := typed;
      if pdfDoc.Some? && typed.Some? && 1 <= typed.value <= pdfDoc.value.numPages {
        RenderPage(typed.value);
      } else {
        pageInput := Some(currentPage);
      }
    }

    /**
     * `openPdfModal` once PDF.js has answered: a failed load (`None`)
     * changes nothing; a loaded document becomes `pdfDoc`, the page is 1 and
     * page 1 is rendered.
     */
    method Open(loaded: Option<PageCount>)
      modifies this`pdfDoc, this`currentPage, this`pending
      ensures loaded.None? ==>
                pdfDoc == old(pdfDoc) && currentPage == old(currentPage) && pending == old(pending)
      ensures loaded.Some? ==>
                && pdfDoc == Some(Document(loaded.value)) && currentPage == 1
                && pending == old(pending) + [RenderJob(Document(loaded.value), 1)]
                && InRange()
    {
      if loaded.Some? {
        pdfDoc := Some(Document(loaded.value));
        currentPage := 1;
        RenderPage(currentPage);
      }
    }

    /** `closePdfModal`: no document and page 1; renders in flight keep running. */
    method Close()
      modifies this`pdfDoc, this`currentPage
      ensures pdfDoc == None && currentPage == 1 && InRange()
    {
      pdfDoc := None;
      currentPage := 1;
    }
  }

  /**
   * A render of page 8 started on a 10-page document resumes after that
   * document was closed and a 3-page one opened: the viewer then shows page
   * 8 of a 3-page document.
   */
  method StaleRenderEscapesRange() returns (v: PageViewer)
    ensures v.pdfDoc == Some(Document(3)) && v.currentPage == 8 && !v.InRange()
  {
    v := new PageViewer();
    v.Open(Some(10));
    v.CompleteRender(0, true);
    v.PageInputChanged(Some(8));
    v.Close();
    v.Open(Some(3));
    v.CompleteRender(1, true);
    v.CompleteRender(0, true);
  }

  /** A render job tagged with the generation of the document it was started on. */
  datatype TaggedJob = TaggedJob(doc: Document, page: int, generation: nat)

  /**
   * The viewer with stale renders ignored: opening and closing start a new
   * generation, and a render that resumes in a later generation than its
   * own leaves the state alone.  Everything else is as in `PageViewer`.
   */
  class GuardedPageViewer {
    var pdfDoc: Option<Document>
    var currentPage: int
    var pageInput: Option<int>
    var pending: seq<TaggedJob>
    var generation: nat

    predicate InRange()
      reads this
    {
      match pdfDoc
      case Some(doc) => 1 <= currentPage <= doc.numPages
      case None => currentPage == 1
    }

    /**
     * The page is in range, no job comes from a future generation, and the
     * jobs of the current generation were started on the open document.
     */
    predicate Valid()
      reads this
    {
      && InRange()
      && (forall j :: 0 <= j < |pending| ==> pending[j].generation <= generation)
      && (forall j :: 0 <= j < |pending| && pending[j].generation == generation ==>
            pdfDoc == Some(pending[j].doc))
    }

    constructor ()
      ensures pdfDoc == None && currentPage == 1 && pageInput == Some(1) && pending == [] && generation == 0
      ensures Valid()
    {
      pdfDoc := None;
      currentPage := 1;
      pageInput := Some(1);
      pending := [];
      generation := 0;
    }

    method RenderPage(pageNum: int)
      requires Valid()
      modifies this`pending
      ensures pending == old(pending) + (if pdfDoc.Some? then [TaggedJob(pdfDoc.value, pageNum, generation)] else [])
      ensures Valid()
    {
      if pdfDoc.Some? {
        pending := pending + [TaggedJob(pdfDoc.value, pageNum, generation)];
      }
    }

    /** As `PageViewer.CompleteRender`, but a job of an earlier generation changes nothing. */
    method CompleteRender(k: nat, ok: bool)
      requires Valid() && k < |pending|
      modifies this`currentPage, this`pageInput, this`pending
      ensures pending == Without(old(pending), k)
      ensures var job := old(pending[k]);
        if job.generation == generation && ok && 1 <= job.page <= job.doc.numPages
        then currentPage == job.page && pageInput == Some(job.page)
        else currentPage == old(currentPage) && pageInput == old(pageInput)
      ensures Valid()
    {
      var job := pending[k];
      pending := Without(pending, k);
      if job.generation == generation && ok && 1 <= job.page <= job.doc.numPages {
        pageInput := Some(job.page);
        currentPage := job.page;
      }
    }

    method Prev()
      requires Valid()
      modifies this`currentPage, this`pending
      ensures if old(pdfDoc.Some? && currentPage > 1)
              then currentPage == old(currentPage) - 1
                   && pending == old(pending) + [TaggedJob(pdfDoc.value, currentPage, generation)]
              else currentPage == old(currentPage) && pending == old(pending)
      ensures Valid()
    {
      if pdfDoc.Some? && currentPage > 1 {
        currentPage := currentPage - 1;
        RenderPage(currentPage);
      }
    }

    method Next()
      requires Valid()
      modifies this`currentPage, this`pending
      ensures if old(pdfDoc.Some? && currentPage < pdfDoc.value.numPages)
              then currentPage == old(currentPage) + 1
                   && pending == old(pending) + [TaggedJob(pdfDoc.value, currentPage, generation)]
              else currentPage == old(currentPage) && pending == old(pending)
      ensures Valid()
    {
      if pdfDoc.Some? && currentPage < pdfDoc.value.numPages {
        currentPage := currentPage + 1;
        RenderPage(currentPage);
      }
    }

    method PageInputChanged(typed: Option<int>)
      requires Valid()
      modifies this`pageInput, this`pending
      ensures var accepted := pdfDoc.Some? && typed.Some? && 1 <= typed.value <= pdfDoc.value.numPages;
        if accepted
        then pageInput == typed && pending == old(pending) + [TaggedJob(pdfDoc.value, typed.value, generation)]
        else pageInput == Some(currentPage) && pending == old(pending)
      ensures Valid()
    {
      pageInput := typed;
      if pdfDoc.Some? && typed.Some? && 1 <= typed.value <= pdfDoc.value.numPages {
        RenderPage(typed.value);
      } else {
        pageInput := Some(currentPage);
      }
    }

    /** As `PageViewer.Open`; a loaded document also starts a new generation. */
    method Open(loaded: Option<PageCount>)
      requires Valid()
      modifies this`pdfDoc, this`currentPage, this`pending, this`generation
      ensures loaded.None? ==>
                && pdfDoc == old(pdfDoc) && currentPage == old(currentPage)
                && pending == old(pending) && generation == old(generation)
      ensures loaded.Some? ==>
                && pdfDoc == Some(Document(loaded.value)) && currentPage == 1
                && generation == old(generation) + 1
                && pending == old(pending) + [TaggedJob(Document(loaded.value), 1, generation)]
      ensures Valid()
    {
      if loaded.Some? {
        pdfDoc := Some(Document(loaded.value));
        currentPage := 1;
        generation := generation + 1;
        RenderPage(currentPage);
      }
    }

    /** As `PageViewer.Close`; closing also starts a new generation. */
    method Close()
      requires Valid()
      modifies this`pdfDoc, this`currentPage, this`generation
      ensures pdfDoc == None && currentPage == 1 && generation == old(generation) + 1
      ensures Valid()
    {
      pdfDoc := None;
      currentPage := 1;
      generation := generation + 1;
    }
  }

  /** The sequence of `StaleRenderEscapesRange` on the guarded viewer: the stale render is ignored. */
  method StaleRenderIgnored() returns (v: GuardedPageViewer)
    ensures v.pdfDoc == Some(Document(3)) && v.currentPage == 1 && v.InRange()
  {
    v := new GuardedPageViewer();
    v.Open(Some(10));
    v.CompleteRender(0, true);
    v.PageInputChanged(Some(8));
    v.Close();
    v.Open(Some(3));
    v.CompleteRender(1, true);
    v.CompleteRender(0, true);
  }
}
