// The split of Markdown code blocks into primary ones and Chinese derivatives of a primary copy.
module PairedDerivatives {
  import opened Options
  import opened Selections

  datatype Block = Block(doc: string, fingerprint: string)

  const ZH_MD := ".zh.md"
  const MD := ".md"

  function UnsuffixedSibling(doc: string): (r: Option<string>)
    ensures r.Some? ==> |r.value| < |doc|
  {
    if |doc| >= |ZH_MD| && doc[|doc| - |ZH_MD|..] == ZH_MD then Some(doc[..|doc| - |ZH_MD|] + MD) else None
  }

  function OfDoc(doc: string): Block -> bool {
    (b: Block) => b.doc == doc
  }

  function BlocksOf(blocks: seq<Block>, doc: string): seq<Block> {
    Select(blocks, OfDoc(doc))
  }

  function Fingerprints(blocks: seq<Block>): seq<string> {
    seq(|blocks|, i requires 0 <= i < |blocks| => blocks[i].fingerprint)
  }

  // The blocks of a document are byte for byte those of its unsuffixed sibling.
  predicate IsDerivative(blocks: seq<Block>, doc: string) {
    match UnsuffixedSibling(doc)
    case None => false
    case Some(sibling) =>
      && BlocksOf(blocks, sibling) != []
      && Fingerprints(BlocksOf(blocks, doc)) == Fingerprints(BlocksOf(blocks, sibling))
  }

  function IsDerived(blocks: seq<Block>): Block -> bool {
    (b: Block) => IsDerivative(blocks, b.doc)
  }

  function StaysPrimary(blocks: seq<Block>): Block -> bool {
    (b: Block) => !IsDerivative(blocks, b.doc)
  }

  method GroupByDoc(blocks: seq<Block>) returns (byDoc: map<string, seq<Block>>)
    ensures forall doc :: doc in byDoc <==> BlocksOf(blocks, doc) != []
    ensures forall doc :: doc in byDoc ==> byDoc[doc] == BlocksOf(blocks, doc)
  {
    byDoc := map[];
    for i := 0 to |blocks|
      invariant forall doc :: doc in byDoc <==> BlocksOf(blocks[..i], doc) != []
      invariant forall doc :: doc in byDoc ==> byDoc[doc] == BlocksOf(blocks[..i], doc)
    {
      var block := blocks[i];
      assert blocks[..i + 1] == blocks[..i] + [block];
      forall doc
        ensures BlocksOf(blocks[..i + 1], doc)
                == BlocksOf(blocks[..i], doc) + (if block.doc == doc then [block] else [])
      {
        SelectSnoc(blocks[..i], OfDoc(doc), block);
      }
      byDoc := byDoc[block.doc := (if block.doc in byDoc then byDoc[block.doc] else []) + [block]];
    }
    assert blocks[..|blocks|] == blocks;
  }

  lemma {:induction false} SelectSplits(blocks: seq<Block>, all: seq<Block>)
    ensures multiset(Select(blocks, StaysPrimary(all))) + multiset(Select(blocks, IsDerived(all))) == multiset(blocks)
  {
    if blocks != [] {
      SelectSplits(blocks[1..], all);
      assert blocks == [blocks[0]] + blocks[1..];
    }
  }

  // Both outputs keep the order of the input, and together they are the input.
  method PartitionPairedMarkdownDerivatives(blocks: seq<Block>) returns (primary: seq<Block>, derivatives: seq<Block>)
    ensures primary == Select(blocks, StaysPrimary(blocks)) && derivatives == Select(blocks, IsDerived(blocks))
    ensures multiset(primary) + multiset(derivatives) == multiset(blocks)
  {
    var byDoc := GroupByDoc(blocks);
    var derivativeDocs := set doc | doc in byDoc && HasSameSibling(byDoc, doc);
    DocsAreDerivatives(blocks, byDoc);
    primary, derivatives := Distribute(blocks, derivativeDocs);
    SelectSplits(blocks, blocks);
  }

  lemma DocsAreDerivatives(blocks: seq<Block>, byDoc: map<string, seq<Block>>)
    requires forall doc :: doc in byDoc <==> BlocksOf(blocks, doc) != []
    requires forall doc :: doc in byDoc ==> byDoc[doc] == BlocksOf(blocks, doc)
    ensures forall i :: 0 <= i < |blocks| ==>
              (blocks[i].doc in byDoc && HasSameSibling(byDoc, blocks[i].doc) <==> IsDerived(blocks)(blocks[i]))
  {
    forall i | 0 <= i < |blocks| ensures blocks[i].doc in byDoc {
      OwnBlocks(blocks, i);
    }
  }

  method Distribute(blocks: seq<Block>, derivativeDocs: set<string>)
    returns (primary: seq<Block>, derivatives: seq<Block>)
    requires forall i :: 0 <= i < |blocks| ==> (blocks[i].doc in derivativeDocs <==> IsDerived(blocks)(blocks[i]))
    ensures primary == Select(blocks, StaysPrimary(blocks)) && derivatives == Select(blocks, IsDerived(blocks))
  {
    primary, derivatives := [], [];
    for i := 0 to |blocks|
      invariant primary == Select(blocks[..i], StaysPrimary(blocks))
      invariant derivatives == Select(blocks[..i], IsDerived(blocks))
    {
      assert blocks[..i + 1] == blocks[..i] + [blocks[i]];
      SelectSnoc(blocks[..i], StaysPrimary(blocks), blocks[i]);
      SelectSnoc(blocks[..i], IsDerived(blocks), blocks[i]);
      if blocks[i].doc in derivativeDocs {
        derivatives := derivatives + [blocks[i]];
      } else {
        primary := primary + [blocks[i]];
      }
    }
    assert blocks[..|blocks|] == blocks;
  }

  predicate HasSameSibling(byDoc: map<string, seq<Block>>, doc: string)
    requires doc in byDoc
  {
    match UnsuffixedSibling(doc)
    case None => false
    case Some(sibling) => sibling in byDoc && Fingerprints(byDoc[doc]) == Fingerprints(byDoc[sibling])
  }

  lemma {:induction false} OwnBlocks(blocks: seq<Block>, i: nat)
    requires i < |blocks|
    ensures BlocksOf(blocks, blocks[i].doc) != []
  {
    if i > 0 { OwnBlocks(blocks[1..], i - 1); }
  }

  // The blocks of the document stand against those of `stem.md`, which has some, one by one.
  ghost predicate Repeats(blocks: seq<Block>, doc: string, stem: string, own: seq<Block>, others: seq<Block>) {
    && doc == stem + ".zh.md"
    && IsSelection(blocks, (b: Block) => b.doc == doc, own)
    && IsSelection(blocks, (b: Block) => b.doc == stem + ".md", others)
    && others != [] && |own| == |others|
    && forall i :: 0 <= i < |own| ==> own[i].fingerprint == others[i].fingerprint
  }

  lemma DerivativeIff(blocks: seq<Block>, doc: string)
    ensures IsDerivative(blocks, doc) <==> exists stem, own, others :: Repeats(blocks, doc, stem, own, others)
  {
    if IsDerivative(blocks, doc) {
      var stem := doc[..|doc| - |ZH_MD|];
      var sibling := stem + MD;
      assert doc == stem + ".zh.md";
      BlocksAreSelected(blocks, doc);
      BlocksAreSelected(blocks, sibling);
      SameFingerprints(BlocksOf(blocks, doc), BlocksOf(blocks, sibling));
      assert Repeats(blocks, doc, stem, BlocksOf(blocks, doc), BlocksOf(blocks, sibling));
    }
    if stem, own, others :| Repeats(blocks, doc, stem, own, others) {
      SiblingOf(doc, stem);
      SelectedAreBlocks(blocks, doc, own);
      SelectedAreBlocks(blocks, stem + ".md", others);
      SameFingerprints(own, others);
    }
  }

  lemma SiblingOf(doc: string, stem: string)
    requires doc == stem + ".zh.md"
    ensures UnsuffixedSibling(doc) == Some(stem + ".md")
  {
    assert doc[|stem|..] == ".zh.md" && doc[..|stem|] == stem;
  }

  lemma SameFingerprints(a: seq<Block>, b: seq<Block>)
    ensures Fingerprints(a) == Fingerprints(b)
       <==> |a| == |b| && forall i :: 0 <= i < |a| ==> a[i].fingerprint == b[i].fingerprint
  {
    if Fingerprints(a) == Fingerprints(b) {
      forall i | 0 <= i < |a| ensures a[i].fingerprint == b[i].fingerprint {
        assert Fingerprints(a)[i] == Fingerprints(b)[i];
      }
    }
  }

  lemma BlocksAreSelected(blocks: seq<Block>, doc: string)
    ensures IsSelection(blocks, (b: Block) => b.doc == doc, BlocksOf(blocks, doc))
  {
    SelectIsSelection(blocks, OfDoc(doc));
    SameSelection(blocks, OfDoc(doc), (b: Block) => b.doc == doc, BlocksOf(blocks, doc));
  }

  lemma SelectedAreBlocks(blocks: seq<Block>, doc: string, own: seq<Block>)
    requires IsSelection(blocks, (b: Block) => b.doc == doc, own)
    ensures own == BlocksOf(blocks, doc)
  {
    SameSelection(blocks, (b: Block) => b.doc == doc, OfDoc(doc), own);
    var at: seq<nat> :| StandsAt(blocks, OfDoc(doc), own, at);
    SelectionIsOne(blocks, OfDoc(doc), own, at);
  }

  // A derivative document repeats, byte for byte, some document that stays primary, however long
  // the chain of siblings of siblings is.
  lemma {:induction false} DerivativeHasPrimary(blocks: seq<Block>, doc: string) returns (original: string)
    requires IsDerivative(blocks, doc)
    ensures !IsDerivative(blocks, original) && BlocksOf(blocks, original) != []
    ensures Fingerprints(BlocksOf(blocks, original)) == Fingerprints(BlocksOf(blocks, doc))
    decreases |doc|
  {
    original := UnsuffixedSibling(doc).value;
    if IsDerivative(blocks, original) {
      original := DerivativeHasPrimary(blocks, original);
    }
  }
}
